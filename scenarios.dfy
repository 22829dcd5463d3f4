/** Concrete runs of the manager: two modules, dictation and command, and a
    start-up replay of three modules A, B and C. */
module Scenarios {
  import opened Registry
  import RegistryProperties

  /** dictation and command, each declaring the other incompatible, both disabled,
      with nothing persisted yet. */
  function TwoModes(): State {
    State(map["dictation" := DynModule(["command"], false), "command" := DynModule(["dictation"], false)],
          ["dictation", "command"], map[], 0)
  }

  /** Enabling command and then dictation: the first call enables command alone;
      the second disables command (persisting False) before enabling dictation. */
  lemma SwitchModes()
    ensures var first := EnableStep(TwoModes(), "command", true);
      && first.notices == [ModuleEnabled("command", true)]
      && first.state.modules["command"].enabled && !first.state.modules["dictation"].enabled
      && first.state.config == map[ConfigKey("command") := true]
      && var second := EnableStep(first.state, "dictation", true);
      && second.notices == [ModuleDisabled("command", true), ModuleEnabled("dictation", true)]
      && !second.state.modules["command"].enabled && second.state.modules["dictation"].enabled
      && second.state.config == map[ConfigKey("command") := false, ConfigKey("dictation") := true]
      && second.state.saves == 3
  {
  }

  /** When only command declares dictation incompatible, enabling dictation while
      command is enabled leaves both enabled: only the list of the module being
      enabled is consulted. */
  lemma OneSidedDeclarationKeepsBoth()
    ensures var s := State(map["dictation" := DynModule([], false), "command" := DynModule(["dictation"], true)],
                           ["dictation", "command"], map[ConfigKey("command") := true], 1);
      var r := EnableStep(s, "dictation", true);
      && r.state.modules["dictation"].enabled && r.state.modules["command"].enabled
      && r.notices == [ModuleEnabled("dictation", true)]
  {
  }

  /** A batch of two modules that declare each other incompatible enables the first
      and skips the second with a message. */
  lemma BatchOfConflictingModes()
    ensures var r := BatchEach(TwoModes(), [Some("command"), Some("dictation")]);
      && r.notices == [ModuleEnabled("command", true), IncompatibleWithPrevious("dictation")]
      && r.state.modules["command"].enabled && !r.state.modules["dictation"].enabled
  {
  }

  /** The persisted configuration at start-up: A and C were enabled, B was not. */
  function Restart(): State {
    State(map[], [], map["dynamics.A" := true, "dynamics.B" := false, "dynamics.C" := true], 0)
  }

  /** The packages of modules A, B and C, discovered in that order, none loaded yet. */
  function Discovered(listOfA: seq<string>, listOfC: seq<string>): seq<Package> {
    [Package("dynamics.a", "A", listOfA), Package("dynamics.b", "B", []), Package("dynamics.c", "C", listOfC)]
  }

  /** Replaying a configuration in which A and C, which list each other, were both
      enabled: C, discovered later, wins; A ends disabled and its flag is persisted
      as False, so the configuration records the resolved outcome. */
  lemma RestartResolvesConflict(s0: State, found: seq<Package>)
    requires s0 == Restart() && found == Discovered(["C"], ["A"])
    ensures var r := ImportEach(s0, found, {}).state;
      && r.modules.Keys == {"A", "B", "C"}
      && !r.modules["A"].enabled && !r.modules["B"].enabled && r.modules["C"].enabled
      && !Flag(r.config, "A") && !Flag(r.config, "B") && Flag(r.config, "C")
  {
    var r3 := ReplayDiscovered(s0, found, ["C"], ["A"]);
    RegistryProperties.ImportKeepsMirrors(s0, found, {});
  }

  /** When only A lists C, C is not registered yet when A is replayed, and enabling
      C consults only C's own (empty) list: both end enabled with their flags True. */
  lemma RestartOneSidedKeepsBoth(s0: State, found: seq<Package>)
    requires s0 == Restart() && found == Discovered(["C"], [])
    ensures var r := ImportEach(s0, found, {}).state;
      && r.modules.Keys == {"A", "B", "C"}
      && r.modules["A"].enabled && r.modules["C"].enabled
      && Flag(r.config, "A") && Flag(r.config, "C")
  {
    var r3 := ReplayDiscovered(s0, found, ["C"], []);
    RegistryProperties.ImportKeepsMirrors(s0, found, {});
  }

  /** The discovery loop over A, B and C from Restart: B stays disabled, C ends
      enabled, and A ends enabled exactly when C does not list it. */
  lemma ReplayDiscovered(s0: State, found: seq<Package>, listOfA: seq<string>, listOfC: seq<string>)
    returns (r3: State)
    requires s0 == Restart() && found == Discovered(listOfA, listOfC)
    ensures r3 == ImportEach(s0, found, {}).state
    ensures r3.modules.Keys == {"A", "B", "C"}
    ensures r3.modules["A"].enabled == ("A" !in listOfC)
    ensures !r3.modules["B"].enabled && r3.modules["C"].enabled
  {
    var r1 := ImportOne(s0, found[0]).state;
    var r2 := ImportOne(r1, found[1]).state;
    r3 := ImportOne(r2, found[2]).state;
    ReplaySteps(s0, found);
    ReplayA(s0, found[0]);
    ReplayB(r1, found[1], listOfA);
    ReplayC(r2, found[2], listOfA);
  }

  /** The loop handles the three packages one after the other. */
  lemma ReplaySteps(s0: State, found: seq<Package>)
    requires |found| == 3
    requires found[0].packageName == "dynamics.a" && found[1].packageName == "dynamics.b"
    requires found[2].packageName == "dynamics.c"
    ensures ImportEach(s0, found, {}).state ==
      ImportOne(ImportOne(ImportOne(s0, found[0]).state, found[1]).state, found[2]).state
  {
    var f1, f2 := found[..1], found[..2];
    assert f1[..0] == [];
    assert IsNew(f1, {}, 0);
    assert ImportEach(s0, f1, {}).state == ImportOne(s0, found[0]).state;
    assert f2[..1] == f1;
    assert IsNew(f2, {}, 1);
    assert ImportEach(s0, f2, {}).state == ImportOne(ImportEach(s0, f1, {}).state, found[1]).state;
    assert found[..2] == f2;
    assert IsNew(found, {}, 2);
  }

  lemma ReplayA(s0: State, p: Package)
    requires s0 == Restart() && p.name == "A"
    ensures var r := ImportOne(s0, p).state;
      && r.modules == map["A" := DynModule(p.incompatible, true)]
      && !Flag(r.config, "B") && Flag(r.config, "C")
  {
    assert ConfigKey("A") == "dynamics.A" && ConfigKey("B") == "dynamics.B" && ConfigKey("C") == "dynamics.C";
    RegistryProperties.ImportOneEffect(s0, p);
    RegistryProperties.ImportOneShape(s0, p);
  }

  lemma ReplayB(r1: State, p: Package, listOfA: seq<string>)
    requires r1.modules == map["A" := DynModule(listOfA, true)]
    requires !Flag(r1.config, "B") && Flag(r1.config, "C")
    requires p == Package("dynamics.b", "B", [])
    ensures var r := ImportOne(r1, p).state;
      && r.modules == map["A" := DynModule(listOfA, true), "B" := DynModule([], false)]
      && Flag(r.config, "C")
  {
    RegistryProperties.ImportOneEffect(r1, p);
  }

  lemma ReplayC(r2: State, p: Package, listOfA: seq<string>)
    requires r2.modules == map["A" := DynModule(listOfA, true), "B" := DynModule([], false)]
    requires Flag(r2.config, "C") && p.name == "C"
    ensures var r := ImportOne(r2, p).state;
      && r.modules.Keys == {"A", "B", "C"}
      && r.modules["A"].enabled == ("A" !in p.incompatible)
      && !r.modules["B"].enabled && r.modules["C"].enabled
  {
    RegistryProperties.ImportOneEffect(r2, p);
    RegistryProperties.ImportOneShape(r2, p);
  }
}
