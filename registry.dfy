/** The dynamic grammar registry as values: the table from module name to module,
    the registration order (the order in which the table is iterated), the persisted
    configuration and the number of times the configuration was saved. Every loop of
    the manager is given here as a function that folds over its input from the left,
    peeling off the LAST element, so that a loop that has handled the first i items
    is in the state the function gives for the prefix of length i. */
module Registry {

  datatype Option<T> = None | Some(value: T)

  /** A dynamic grammar module as the manager sees it: the names it declares
      incompatible (INCOMPATIBLE_MODULES) and whether it is enabled. */
  datatype DynModule = DynModule(incompatible: seq<string>, enabled: bool)

  /** A package found on the dynamics path: its package name (the sys.modules key),
      the module's DYN_MODULE_NAME and its INCOMPATIBLE_MODULES. */
  datatype Package = Package(packageName: string, name: string, incompatible: seq<string>)

  /** A notification. Enabled and disabled notices record whether their sound is
      played; "already enabled" always plays one, since enable_module does not pass
      its useSound on; "none enabled" and "incompatible with previous" are only
      printed. */
  datatype Notice =
    | ModuleEnabled(name: string, sound: bool)
    | ModuleDisabled(name: string, sound: bool)
    | AlreadyEnabled(name: string)
    | AllDisabled(sound: bool)
    | NoneEnabled
    | IncompatibleWithPrevious(name: string)

  datatype State = State(
    modules: map<string, DynModule>,
    order: seq<string>,
    config: map<string, bool>,
    saves: nat)

  /** The state after an operation and the notifications it emitted, in order. */
  datatype Step = Step(state: State, notices: seq<Notice>)

  /** Result of disabling every module: new state, number disabled, notifications. */
  datatype Tally = Tally(state: State, count: nat, notices: seq<Notice>)

  /** Result of part of a batch: new state, accumulated incompatible names, notifications. */
  datatype Batch = Batch(state: State, incompatible: seq<string>, notices: seq<Notice>)

  /** The configuration key under which a module's enabled flag is persisted. */
  function ConfigKey(name: string): string {
    "dynamics." + name
  }

  /** config.get("dynamics.<name>", False) */
  function Flag(config: map<string, bool>, name: string): bool {
    if ConfigKey(name) in config then config[ConfigKey(name)] else false
  }

  predicate Distinct<T(==)>(xs: seq<T>) {
    forall i, j :: 0 <= i < j < |xs| ==> xs[i] != xs[j]
  }

  /** The iteration order lists every registered name exactly once. */
  ghost predicate WellFormed(s: State) {
    && Distinct(s.order)
    && s.modules.Keys == set n | n in s.order
  }

  /** r has the same registered names, order and incompatibility lists as s. */
  ghost predicate SameShape(s: State, r: State) {
    && r.order == s.order
    && r.modules.Keys == s.modules.Keys
    && forall n :: n in s.modules ==> n in r.modules && r.modules[n].incompatible == s.modules[n].incompatible
  }

  /** Every module named in a batch is a registered one. */
  predicate Registered(modules: map<string, DynModule>, members: seq<Option<string>>) {
    forall i :: 0 <= i < |members| && members[i].Some? ==> members[i].value in modules
  }

  /** disable_module on a registered module: dynamic_disable reports whether the
      module was enabled; only then is the flag persisted as False and saved. */
  function DisableStep(s: State, name: string, sound: bool): (r: Step)
    requires name in s.modules
    ensures SameShape(s, r.state)
  {
    var m := s.modules[name];
    if m.enabled then
      var t := s.(modules := s.modules[name := m.(enabled := false)],
                  config := s.config[ConfigKey(name) := false],
                  saves := s.saves + 1);
      Step(t, [ModuleDisabled(name, sound)])
    else
      Step(s, [])
  }

  /** disable_incompatible_modules: every name of `names` that has a registry entry
      is disabled through disable_module (with sound); other names are skipped. */
  function ConflictStep(s: State, names: seq<string>): (r: Step)
    ensures SameShape(s, r.state)
    decreases |names|
  {
    if names == [] then Step(s, [])
    else
      var prev := ConflictStep(s, names[..|names| - 1]);
      var n := names[|names| - 1];
      if n in prev.state.modules then
        var d := DisableStep(prev.state, n, true);
        Step(d.state, prev.notices + d.notices)
      else
        prev
  }

  /** enable_module on a registered module: first the conflicts, then dynamic_enable,
      which reports whether the module was disabled; only then is the flag persisted
      as True and saved, otherwise the "already enabled" message is shown. */
  function EnableStep(s: State, name: string, sound: bool): (r: Step)
    requires name in s.modules
    ensures SameShape(s, r.state)
    ensures r.state.modules[name].enabled
  {
    var pre := ConflictStep(s, s.modules[name].incompatible);
    var t := pre.state;
    if !t.modules[name].enabled then
      var u := t.(modules := t.modules[name := t.modules[name].(enabled := true)],
                  config := t.config[ConfigKey(name) := true],
                  saves := t.saves + 1);
      Step(u, pre.notices + [ModuleEnabled(name, sound)])
    else
      Step(t, pre.notices + [AlreadyEnabled(name)])
  }

  /** enable_module with its `if not module: return` guard. */
  function EnableModuleStep(s: State, target: Option<string>, sound: bool): (r: Step)
    requires target.Some? ==> target.value in s.modules
    ensures SameShape(s, r.state)
    ensures target.None? ==> r == Step(s, [])
  {
    match target
    case None => Step(s, [])
    case Some(name) => EnableStep(s, name, sound)
  }

  /** disable_module with its `if not module: return` guard. */
  function DisableModuleStep(s: State, target: Option<string>, sound: bool): (r: Step)
    requires target.Some? ==> target.value in s.modules
    ensures SameShape(s, r.state)
    ensures target.None? ==> r == Step(s, [])
  {
    match target
    case None => Step(s, [])
    case Some(name) => DisableStep(s, name, sound)
  }

  /** The loop of disable_all_modules over `names`: each enabled module is disabled,
      counted, persisted as False and announced without sound; nothing is saved. */
  function DisableEach(s: State, names: seq<string>): (r: Tally)
    requires forall i :: 0 <= i < |names| ==> names[i] in s.modules
    ensures SameShape(s, r.state)
    ensures r.state.saves == s.saves
    decreases |names|
  {
    if names == [] then Tally(s, 0, [])
    else
      var prev := DisableEach(s, names[..|names| - 1]);
      var n := names[|names| - 1];
      var t := prev.state;
      if t.modules[n].enabled then
        var u := t.(modules := t.modules[n := t.modules[n].(enabled := false)],
                    config := t.config[ConfigKey(n) := false]);
        Tally(u, prev.count + 1, prev.notices + [ModuleDisabled(n, false)])
      else
        prev
  }

  /** disable_all_modules: the loop over the table, then one save and one aggregate
      message when something was disabled, else the "none enabled" message. */
  function DisableAllStep(s: State, sound: bool): (r: Tally)
    requires WellFormed(s)
    ensures SameShape(s, r.state)
  {
    var t := DisableEach(s, s.order);
    if t.count > 0 then
      Tally(t.state.(saves := t.state.saves + 1), t.count, t.notices + [AllDisabled(sound)])
    else
      Tally(t.state, 0, t.notices + [NoneEnabled])
  }

  /** The loop of enable_modules: a member whose name is among the incompatible
      names accumulated so far is skipped with a message; any other member is
      enabled (with sound) and its incompatible names are appended. */
  function BatchEach(s: State, members: seq<Option<string>>): (r: Batch)
    requires Registered(s.modules, members)
    ensures SameShape(s, r.state)
    decreases |members|
  {
    if members == [] then Batch(s, [], [])
    else
      var prev := BatchEach(s, members[..|members| - 1]);
      match members[|members| - 1]
      case None => prev
      case Some(n) =>
        if n !in prev.incompatible then
          var e := EnableStep(prev.state, n, true);
          Batch(e.state, prev.incompatible + prev.state.modules[n].incompatible, prev.notices + e.notices)
        else
          Batch(prev.state, prev.incompatible, prev.notices + [IncompatibleWithPrevious(n)])
  }

  /** enable_modules: optionally disable everything (without sound), then the batch. */
  function EnableModulesStep(s: State, members: seq<Option<string>>, disableOthers: bool): (r: Step)
    requires WellFormed(s)
    requires Registered(s.modules, members)
    ensures SameShape(s, r.state)
  {
    var pre := if disableOthers then DisableAllStep(s, false) else Tally(s, 0, []);
    var b := BatchEach(pre.state, members);
    Step(b.state, pre.notices + b.notices)
  }

  /** The i-th package is loaded by the discovery loop: it is not in sys.modules
      beforehand and no earlier package of the loop had the same name (loading a
      package puts it into sys.modules). */
  predicate IsNew(found: seq<Package>, sysModules: set<string>, i: int)
    requires 0 <= i < |found|
  {
    && found[i].packageName !in sysModules
    && forall j :: 0 <= j < i ==> found[j].packageName != found[i].packageName
  }

  /** The names registered by the discovery loop. */
  function NewNames(found: seq<Package>, sysModules: set<string>): set<string> {
    set i | 0 <= i < |found| && IsNew(found, sysModules, i) :: found[i].name
  }

  /** What the discovery loop does with the module of a newly loaded package: it is
      put into the table, disabled (a name keeps its place in the iteration order if
      it had one), and enabled without sound when its persisted flag is True. */
  function ImportOne(s: State, p: Package): (r: Step)
    ensures p.name in r.state.modules
  {
    var reg := s.(modules := s.modules[p.name := DynModule(p.incompatible, false)],
                  order := if p.name in s.order then s.order else s.order + [p.name]);
    if Flag(reg.config, p.name) then EnableStep(reg, p.name, false)
    else Step(reg, [])
  }

  /** The discovery loop of import_dynamic_modules over the packages found, in order:
      earlier entries stay registered and keep their place in the iteration order. */
  function ImportEach(s: State, found: seq<Package>, sysModules: set<string>): (r: Step)
    ensures s.order <= r.state.order
    ensures s.modules.Keys <= r.state.modules.Keys
    decreases |found|
  {
    if found == [] then Step(s, [])
    else
      var k := |found| - 1;
      var prev := ImportEach(s, found[..k], sysModules);
      if !IsNew(found, sysModules, k) then prev
      else
        var one := ImportOne(prev.state, found[k]);
        Step(one.state, prev.notices + one.notices)
  }
}
