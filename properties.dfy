/** What the dynamic manager's operations do, stated against reference definitions
    that do not follow the loops: which modules end enabled, which configuration
    keys end written, how many saves happen, and which invariants are kept. */
module RegistryProperties {
  import opened Registry

  /** The registered names of `names` whose module is enabled. */
  function EnabledAmong(modules: map<string, DynModule>, names: seq<string>): set<string> {
    set n | n in names && n in modules && modules[n].enabled
  }

  /** The registered names whose module is enabled. */
  function EnabledSet(modules: map<string, DynModule>): set<string> {
    set n | n in modules && modules[n].enabled
  }

  /** The configuration keys of a set of module names. */
  function KeysOf(names: set<string>): set<string> {
    set n | n in names :: ConfigKey(n)
  }

  /** `config` with the flag of every name in `names` persisted as `value`. */
  function Persisted(config: map<string, bool>, names: set<string>, value: bool): map<string, bool> {
    map k | k in config.Keys + KeysOf(names) :: if k in KeysOf(names) then value else config[k]
  }

  /** Every registered module's persisted flag agrees with its enabled state: the
      table is a cache of the configuration. */
  ghost predicate Mirrors(s: State) {
    forall n :: n in s.modules ==> Flag(s.config, n) == s.modules[n].enabled
  }

  /** No two enabled modules declare each other incompatible. */
  ghost predicate NoMutualConflict(modules: map<string, DynModule>) {
    forall a, b :: a in modules && b in modules && a != b && modules[a].enabled && modules[b].enabled ==>
      !(b in modules[a].incompatible && a in modules[b].incompatible)
  }

  // ---------------------------------------------------------------------------
  // Configuration keys

  /** Distinct module names are persisted under distinct keys. */
  lemma ConfigKeyInjective(a: string, b: string)
    ensures ConfigKey(a) == ConfigKey(b) ==> a == b
  {
    if ConfigKey(a) == ConfigKey(b) {
      assert a == ConfigKey(a)[9..];
      assert b == ConfigKey(b)[9..];
    }
  }

  /** Reading a module's flag back from a configuration written by Persisted. */
  lemma FlagOfPersisted(config: map<string, bool>, names: set<string>, value: bool, x: string)
    ensures Flag(Persisted(config, names, value), x) == if x in names then value else Flag(config, x)
  {
    if x !in names && ConfigKey(x) in KeysOf(names) {
      var y :| y in names && ConfigKey(y) == ConfigKey(x);
      ConfigKeyInjective(x, y);
    }
  }

  lemma FlagOfUpdate(config: map<string, bool>, a: string, value: bool, x: string)
    ensures Flag(config[ConfigKey(a) := value], x) == if x == a then value else Flag(config, x)
  {
    ConfigKeyInjective(a, x);
  }

  lemma PersistedNothing(config: map<string, bool>, value: bool)
    ensures Persisted(config, {}, value) == config
  {
  }

  lemma PersistedAdd(config: map<string, bool>, names: set<string>, n: string, value: bool)
    ensures Persisted(config, names, value)[ConfigKey(n) := value] == Persisted(config, names + {n}, value)
  {
  }

  /** A name outside a set has its key outside the set's keys. */
  lemma KeyOutside(names: set<string>, a: string)
    requires a !in names
    ensures ConfigKey(a) !in KeysOf(names)
  {
    if ConfigKey(a) in KeysOf(names) {
      var y :| y in names && ConfigKey(y) == ConfigKey(a);
      ConfigKeyInjective(a, y);
    }
  }

  /** A state with the same names, order and lists as a well-formed one is well formed. */
  lemma SameShapeKeepsWellFormed(s: State, r: State)
    requires WellFormed(s) && SameShape(s, r)
    ensures WellFormed(r)
  {
  }

  /** How the enabled names of a list grow by one more name. */
  lemma EnabledAmongSnoc(modules: map<string, DynModule>, front: seq<string>, n: string)
    ensures EnabledAmong(modules, front + [n]) ==
      EnabledAmong(modules, front) + (if n in modules && modules[n].enabled then {n} else {})
  {
  }

  // ---------------------------------------------------------------------------
  // disable_module

  /** disable_module on a registered module: it ends disabled; when it was enabled,
      its flag alone is persisted as False, with one save and one notification;
      when it was already disabled, nothing changes and nothing is announced; no
      other module is touched. */
  lemma DisableStepEffect(s: State, a: string, sound: bool)
    requires a in s.modules
    ensures var r := DisableStep(s, a, sound);
      && !r.state.modules[a].enabled
      && (forall n :: n in s.modules && n != a ==> r.state.modules[n] == s.modules[n])
      && (s.modules[a].enabled ==>
            && r.state.config == s.config[ConfigKey(a) := false]
            && r.state.saves == s.saves + 1
            && r.notices == [ModuleDisabled(a, sound)])
      && (!s.modules[a].enabled ==> r == Step(s, []))
  {
  }

  // ---------------------------------------------------------------------------
  // disable_incompatible_modules and enable_module

  /** After the conflict loop over `names`, exactly the registered modules named in
      `names` are disabled and the others are untouched. */
  lemma {:induction false} ConflictStepModules(s: State, names: seq<string>)
    ensures var r := ConflictStep(s, names).state;
      forall n :: n in s.modules ==>
        r.modules[n] == s.modules[n].(enabled := s.modules[n].enabled && n !in names)
    decreases |names|
  {
    if names != [] {
      var k := |names| - 1;
      ConflictStepModules(s, names[..k]);
      assert names == names[..k] + [names[k]];
    }
  }

  /** The conflict loop persists False for exactly the listed modules that were
      enabled, with one save and one notification each. */
  lemma {:induction false} ConflictStepWrites(s: State, names: seq<string>)
    ensures var r := ConflictStep(s, names);
      && r.state.config == Persisted(s.config, EnabledAmong(s.modules, names), false)
      && r.state.saves == s.saves + |EnabledAmong(s.modules, names)|
      && |r.notices| == |EnabledAmong(s.modules, names)|
    decreases |names|
  {
    if names == [] {
      assert EnabledAmong(s.modules, names) == {};
      PersistedNothing(s.config, false);
    } else {
      var k := |names| - 1;
      var front, n := names[..k], names[k];
      ConflictStepWrites(s, front);
      ConflictStepModules(s, front);
      var prev := ConflictStep(s, front).state;
      assert names == front + [n];
      if n in s.modules && prev.modules[n].enabled {
        assert EnabledAmong(s.modules, names) == EnabledAmong(s.modules, front) + {n} by {
          EnabledAmongSnoc(s.modules, front, n);
        }
        assert n !in EnabledAmong(s.modules, front);
        PersistedAdd(s.config, EnabledAmong(s.modules, front), n, false);
      } else {
        assert EnabledAmong(s.modules, names) == EnabledAmong(s.modules, front) by {
          EnabledAmongSnoc(s.modules, front, n);
        }
      }
    }
  }

  /** After the conflict loop over `names`, exactly the registered modules named in
      `names` are disabled, exactly the ones of them that were enabled have their
      flag persisted as False, and each of those caused one save and one
      notification with sound, which names it. */
  lemma ConflictStepEffect(s: State, names: seq<string>)
    ensures var r := ConflictStep(s, names).state;
      && (forall n :: n in s.modules ==>
            r.modules[n] == s.modules[n].(enabled := s.modules[n].enabled && n !in names))
      && r.config == Persisted(s.config, EnabledAmong(s.modules, names), false)
      && r.saves == s.saves + |EnabledAmong(s.modules, names)|
      && |ConflictStep(s, names).notices| == |EnabledAmong(s.modules, names)|
      && (forall n :: n in EnabledAmong(s.modules, names) ==>
            ModuleDisabled(n, true) in ConflictStep(s, names).notices)
      && (forall e :: e in ConflictStep(s, names).notices ==>
            e.ModuleDisabled? && e.sound && e.name in EnabledAmong(s.modules, names))
  {
    ConflictStepModules(s, names);
    ConflictStepWrites(s, names);
    ConflictAnnouncesEach(s, names);
    ConflictNoticesAreTransitions(s, names);
  }

  /** The whole effect of enable_module on a registered module A with list L:
      A ends enabled; every other module ends disabled if named in L and is
      otherwise untouched; the flags of the enabled modules of L are persisted as
      False; A's flag is persisted as True, with one more save, exactly when
      dynamic_enable reports a transition, which is when A was disabled or was
      itself disabled by its own list; the last notification tells which. */
  lemma EnableStepEffect(s: State, a: string, sound: bool)
    requires a in s.modules
    ensures
      var L := s.modules[a].incompatible;
      var D := EnabledAmong(s.modules, L);
      var transition := !s.modules[a].enabled || a in L;
      var r := EnableStep(s, a, sound);
      && r.state.modules[a] == s.modules[a].(enabled := true)
      && (forall n :: n in s.modules && n != a ==>
            r.state.modules[n] == s.modules[n].(enabled := s.modules[n].enabled && n !in L))
      && r.state.config == (if transition then Persisted(s.config, D, false)[ConfigKey(a) := true]
                            else Persisted(s.config, D, false))
      && r.state.saves == s.saves + |D| + (if transition then 1 else 0)
      && r.notices == ConflictStep(s, L).notices +
                      [if transition then ModuleEnabled(a, sound) else AlreadyEnabled(a)]
  {
    ConflictStepEffect(s, s.modules[a].incompatible);
  }

  /** After enabling A, A is enabled and no registered module that A lists (other
      than A itself) is enabled; names without a registry entry are skipped. */
  lemma EnableResolvesConflicts(s: State, a: string, sound: bool)
    requires a in s.modules
    ensures var r := EnableStep(s, a, sound).state;
      && r.modules[a].enabled
      && forall n :: n in s.modules[a].incompatible && n in s.modules && n != a ==> !r.modules[n].enabled
  {
    EnableStepEffect(s, a, sound);
  }

  /** enable_module persists True for A and announces it exactly when dynamic_enable
      reports a transition; otherwise A's configuration entry is left as it was, no
      "enabled" notification is emitted and the last one is "already enabled". */
  lemma EnablePersistsOnlyTransitions(s: State, a: string, sound: bool)
    requires a in s.modules
    ensures var L := s.modules[a].incompatible;
      var transition := !s.modules[a].enabled || a in L;
      var r := EnableStep(s, a, sound);
      && (transition <==> ModuleEnabled(a, sound) in r.notices)
      && (transition ==> ConfigKey(a) in r.state.config && r.state.config[ConfigKey(a)])
      && (!transition ==>
            && (ConfigKey(a) in r.state.config <==> ConfigKey(a) in s.config)
            && (ConfigKey(a) in s.config ==> r.state.config[ConfigKey(a)] == s.config[ConfigKey(a)])
            && r.notices[|r.notices| - 1] == AlreadyEnabled(a)
            && forall e :: e in r.notices ==> !e.ModuleEnabled?)
  {
    var L := s.modules[a].incompatible;
    var D := EnabledAmong(s.modules, L);
    EnableStepEffect(s, a, sound);
    var r := EnableStep(s, a, sound);
    ConflictNoticesAreTransitions(s, L);
    if !(!s.modules[a].enabled || a in L) {
      KeyOutside(D, a);
    }
  }

  /** Enabling an enabled module that does not list itself and whose registered
      incompatible modules are all disabled changes nothing and only reports
      "already enabled". */
  lemma EnableAlreadyEnabledIsNoOp(s: State, a: string, sound: bool)
    requires a in s.modules && s.modules[a].enabled && a !in s.modules[a].incompatible
    requires EnabledAmong(s.modules, s.modules[a].incompatible) == {}
    ensures EnableStep(s, a, sound) == Step(s, [AlreadyEnabled(a)])
  {
    var L := s.modules[a].incompatible;
    EnableStepEffect(s, a, sound);
    ConflictStepEffect(s, L);
    PersistedNothing(s.config, false);
    assert ConflictStep(s, L).notices == [];
    var r := EnableStep(s, a, sound);
    forall n | n in s.modules
      ensures r.state.modules[n] == s.modules[n]
    {
      assert n !in EnabledAmong(s.modules, L);
    }
    assert r.state.modules == s.modules;
  }

  /** Every notification of the conflict loop announces the disabling of a module
      of the list that was enabled beforehand. */
  lemma {:induction false} ConflictNoticesAreTransitions(s: State, names: seq<string>)
    ensures forall e :: e in ConflictStep(s, names).notices ==>
      e.ModuleDisabled? && e.sound && e.name in EnabledAmong(s.modules, names)
    decreases |names|
  {
    if names != [] {
      var k := |names| - 1;
      var front, n := names[..k], names[k];
      ConflictNoticesAreTransitions(s, front);
      ConflictStepModules(s, front);
      assert names == front + [n];
      EnabledAmongSnoc(s.modules, front, n);
    }
  }

  /** Conversely, every listed module that was enabled is announced as disabled,
      with sound, by the conflict loop. */
  lemma {:induction false} ConflictAnnouncesEach(s: State, names: seq<string>)
    ensures forall n :: n in EnabledAmong(s.modules, names) ==>
      ModuleDisabled(n, true) in ConflictStep(s, names).notices
    decreases |names|
  {
    if names != [] {
      var k := |names| - 1;
      var front, last := names[..k], names[k];
      ConflictAnnouncesEach(s, front);
      ConflictStepModules(s, front);
      assert names == front + [last];
      EnabledAmongSnoc(s.modules, front, last);
    }
  }

  /** Enabling A touches no configuration key other than A's own and those of the
      modules A lists, and no module other than A and the ones A lists. */
  lemma EnableFrame(s: State, a: string, sound: bool)
    requires a in s.modules
    ensures var L := s.modules[a].incompatible;
      var r := EnableStep(s, a, sound).state;
      && (forall n :: n in s.modules && n != a && n !in L ==> r.modules[n] == s.modules[n])
      && (forall x :: x != a && x !in L ==> Flag(r.config, x) == Flag(s.config, x))
  {
    var L := s.modules[a].incompatible;
    var D := EnabledAmong(s.modules, L);
    EnableStepEffect(s, a, sound);
    var r := EnableStep(s, a, sound).state;
    forall x | x != a && x !in L
      ensures Flag(r.config, x) == Flag(s.config, x)
    {
      FlagOfPersisted(s.config, D, false, x);
      FlagOfUpdate(Persisted(s.config, D, false), a, true, x);
    }
  }

  // ---------------------------------------------------------------------------
  // disable_all_modules

  /** The loop of disable_all_modules over `names`: exactly the listed modules end
      disabled, exactly the ones that were enabled have their flag persisted as
      False, and the count is their number. */
  lemma {:induction false} DisableEachEffect(s: State, names: seq<string>)
    requires forall i :: 0 <= i < |names| ==> names[i] in s.modules
    ensures var t := DisableEach(s, names);
      && (forall n :: n in s.modules ==>
            t.state.modules[n] == s.modules[n].(enabled := s.modules[n].enabled && n !in names))
      && t.state.config == Persisted(s.config, EnabledAmong(s.modules, names), false)
      && t.count == |EnabledAmong(s.modules, names)|
    decreases |names|
  {
    if names == [] {
      assert EnabledAmong(s.modules, names) == {};
      PersistedNothing(s.config, false);
    } else {
      var k := |names| - 1;
      var front, n := names[..k], names[k];
      DisableEachEffect(s, front);
      var prev := DisableEach(s, front).state;
      assert names == front + [n];
      if prev.modules[n].enabled {
        assert EnabledAmong(s.modules, names) == EnabledAmong(s.modules, front) + {n} by {
          EnabledAmongSnoc(s.modules, front, n);
        }
        assert n !in EnabledAmong(s.modules, front);
        PersistedAdd(s.config, EnabledAmong(s.modules, front), n, false);
      } else {
        assert EnabledAmong(s.modules, names) == EnabledAmong(s.modules, front) by {
          EnabledAmongSnoc(s.modules, front, n);
        }
      }
    }
  }

  /** disable_all_modules: the count is the number of modules enabled beforehand;
      afterwards none is enabled; exactly the counted modules have their flag
      persisted as False; the configuration is saved once, and only when the count
      is positive; the last notification is the aggregate one or "none enabled";
      and when nothing was enabled nothing changes. */
  lemma DisableAllEffect(s: State, sound: bool)
    requires WellFormed(s)
    ensures var E := EnabledSet(s.modules);
      var t := DisableAllStep(s, sound);
      && t.count == |E|
      && (forall n :: n in s.modules ==> t.state.modules[n] == s.modules[n].(enabled := false))
      && t.state.config == Persisted(s.config, E, false)
      && t.state.saves == s.saves + (if |E| > 0 then 1 else 0)
      && t.notices[|t.notices| - 1] == (if |E| > 0 then AllDisabled(sound) else NoneEnabled)
      && (E == {} ==> t.state == s)
  {
    DisableEachEffect(s, s.order);
    assert EnabledAmong(s.modules, s.order) == EnabledSet(s.modules);
    var t := DisableAllStep(s, sound);
    if EnabledSet(s.modules) == {} {
      PersistedNothing(s.config, false);
      forall n | n in s.modules
        ensures t.state.modules[n] == s.modules[n]
      {
        assert n !in EnabledSet(s.modules);
      }
      assert t.state.modules == s.modules;
    }
  }

  /** The loop of disable_all_modules announces, without sound, exactly the listed
      modules that were enabled, and nothing else. */
  lemma {:induction false} DisableEachNotices(s: State, names: seq<string>)
    requires forall i :: 0 <= i < |names| ==> names[i] in s.modules
    ensures var t := DisableEach(s, names);
      && (forall n :: n in EnabledAmong(s.modules, names) ==> ModuleDisabled(n, false) in t.notices)
      && (forall e :: e in t.notices ==>
            e.ModuleDisabled? && !e.sound && e.name in EnabledAmong(s.modules, names))
    decreases |names|
  {
    if names != [] {
      var k := |names| - 1;
      var front, last := names[..k], names[k];
      DisableEachNotices(s, front);
      DisableEachEffect(s, front);
      assert names == front + [last];
      EnabledAmongSnoc(s.modules, front, last);
    }
  }

  /** disable_all_modules emits one notification, without sound, for each module
      that was enabled, followed by the aggregate one or "none enabled". */
  lemma DisableAllNotices(s: State, sound: bool)
    requires WellFormed(s)
    ensures var E := EnabledSet(s.modules);
      var t := DisableAllStep(s, sound);
      && |t.notices| == |E| + 1
      && (forall n :: n in E ==> ModuleDisabled(n, false) in t.notices)
      && (forall i :: 0 <= i < |t.notices| - 1 ==>
            t.notices[i].ModuleDisabled? && !t.notices[i].sound && t.notices[i].name in E)
  {
    DisableEachEffect(s, s.order);
    DisableEachNotices(s, s.order);
    assert EnabledAmong(s.modules, s.order) == EnabledSet(s.modules);
    var t := DisableEach(s, s.order);
    assert |t.notices| == t.count by {
      DisableEachCountsNotices(s, s.order);
    }
    forall i | 0 <= i < |t.notices|
      ensures t.notices[i] in t.notices
    {
    }
  }

  /** The loop of disable_all_modules emits one notification per module it counts. */
  lemma {:induction false} DisableEachCountsNotices(s: State, names: seq<string>)
    requires forall i :: 0 <= i < |names| ==> names[i] in s.modules
    ensures |DisableEach(s, names).notices| == DisableEach(s, names).count
    decreases |names|
  {
    if names != [] {
      DisableEachCountsNotices(s, names[..|names| - 1]);
    }
  }

  // ---------------------------------------------------------------------------
  // enable_modules

  /** Enabling A enables no module other than A. */
  lemma EnableEnablesOnlyTarget(s: State, a: string, sound: bool)
    requires a in s.modules
    ensures var r := EnableStep(s, a, sound).state;
      forall n :: n in s.modules && n != a && r.modules[n].enabled ==> s.modules[n].enabled
  {
    EnableStepEffect(s, a, sound);
  }

  /** The batch loop enables no module that is not one of its members. */
  lemma {:induction false} BatchEnablesOnlyMembers(s: State, members: seq<Option<string>>)
    requires Registered(s.modules, members)
    ensures var r := BatchEach(s, members).state;
      forall n :: n in s.modules && r.modules[n].enabled ==> s.modules[n].enabled || Some(n) in members
    decreases |members|
  {
    if members != [] {
      var k := |members| - 1;
      var front := members[..k];
      BatchEnablesOnlyMembers(s, front);
      assert members == front + [members[k]];
      var prev := BatchEach(s, front);
      if members[k].Some? && members[k].value !in prev.incompatible {
        EnableEnablesOnlyTarget(prev.state, members[k].value, true);
      }
    }
  }

  /** One member of the batch keeps a listed, disabled name listed and disabled. */
  lemma BatchStepKeepsListedDisabled(s: State, members: seq<Option<string>>, n: string)
    requires Registered(s.modules, members) && members != []
    requires var prev := BatchEach(s, members[..|members| - 1]);
      n in prev.incompatible && n in s.modules && !prev.state.modules[n].enabled
    ensures n in BatchEach(s, members).incompatible
    ensures !BatchEach(s, members).state.modules[n].enabled
  {
    var prev := BatchEach(s, members[..|members| - 1]);
    var last := members[|members| - 1];
    if last.Some? && last.value !in prev.incompatible {
      EnableEnablesOnlyTarget(prev.state, last.value, true);
    }
  }

  /** Once a name is among the accumulated incompatible names and its module is
      disabled, it stays listed and the rest of the batch leaves it disabled. */
  lemma {:induction false} BatchKeepsListedDisabled(s: State, members: seq<Option<string>>, i: nat, n: string)
    requires Registered(s.modules, members) && i <= |members|
    requires n in BatchEach(s, members[..i]).incompatible
    requires n in s.modules && !BatchEach(s, members[..i]).state.modules[n].enabled
    ensures n in BatchEach(s, members).incompatible
    ensures !BatchEach(s, members).state.modules[n].enabled
    decreases |members|
  {
    if i == |members| {
      assert members[..i] == members;
    } else {
      var front := members[..|members| - 1];
      assert front[..i] == members[..i];
      BatchKeepsListedDisabled(s, front, i, n);
      BatchStepKeepsListedDisabled(s, members, n);
    }
  }

  /** A batch member whose name is already among the incompatible names of the
      members processed before it is skipped with a message; when it is disabled at
      that point it is still disabled at the end (BatchSkippedEndsDisabled shows it
      is, unless it lists itself). */
  lemma BatchSkipsListed(s: State, members: seq<Option<string>>, i: nat)
    requires Registered(s.modules, members) && i < |members| && members[i].Some?
    requires members[i].value in BatchEach(s, members[..i]).incompatible
    ensures var n := members[i].value;
      var prev := BatchEach(s, members[..i]);
      && BatchEach(s, members[..i + 1]) ==
           Batch(prev.state, prev.incompatible, prev.notices + [IncompatibleWithPrevious(n)])
      && (!prev.state.modules[n].enabled ==> !BatchEach(s, members).state.modules[n].enabled)
  {
    var n := members[i].value;
    assert members[..i + 1][..i] == members[..i];
    if !BatchEach(s, members[..i]).state.modules[n].enabled {
      BatchKeepsListedDisabled(s, members, i + 1, n);
    }
  }

  /** A skipped batch member ends disabled unless its module lists itself: the
      earlier member that listed it disabled it, and nothing enables it later. */
  lemma BatchSkippedEndsDisabled(s: State, members: seq<Option<string>>, i: nat)
    requires Registered(s.modules, members) && i < |members| && members[i].Some?
    requires members[i].value in BatchEach(s, members[..i]).incompatible
    ensures var n := members[i].value;
      n !in s.modules[n].incompatible ==> !BatchEach(s, members).state.modules[n].enabled
  {
    var n := members[i].value;
    if n !in s.modules[n].incompatible {
      assert Registered(s.modules, members[..i]);
      BatchListedDisabled(s, members[..i]);
      BatchSkipsListed(s, members, i);
    }
  }

  /** Every accumulated incompatible name whose module does not list itself is
      disabled when the batch ends: the member that listed it disabled it, and only
      members whose names are not accumulated are enabled afterwards. */
  lemma {:induction false} BatchListedDisabled(s: State, members: seq<Option<string>>)
    requires Registered(s.modules, members)
    ensures var b := BatchEach(s, members);
      forall n :: n in b.incompatible && n in s.modules && n !in s.modules[n].incompatible ==>
        !b.state.modules[n].enabled
    decreases |members|
  {
    if members != [] {
      var k := |members| - 1;
      var front := members[..k];
      assert Registered(s.modules, front);
      BatchListedDisabled(s, front);
      var prev := BatchEach(s, front);
      if members[k].Some? && members[k].value !in prev.incompatible {
        EnableStepEffect(prev.state, members[k].value, true);
      }
    }
  }

  /** enable_modules with disableOthers: afterwards the only enabled modules are
      members of the batch. */
  lemma EnableModulesOnly(s: State, members: seq<Option<string>>)
    requires WellFormed(s) && Registered(s.modules, members)
    ensures var r := EnableModulesStep(s, members, true).state;
      forall n :: n in s.modules && r.modules[n].enabled ==> Some(n) in members
  {
    var pre := DisableAllStep(s, false);
    DisableAllEffect(s, false);
    BatchEnablesOnlyMembers(pre.state, members);
  }

  /** Enabling A sets no flag to True other than A's own. */
  lemma EnableRaisesOnlyTarget(s: State, a: string, sound: bool)
    requires a in s.modules
    ensures forall x :: x != a && !Flag(s.config, x) ==> !Flag(EnableStep(s, a, sound).state.config, x)
  {
    var D := EnabledAmong(s.modules, s.modules[a].incompatible);
    EnableStepEffect(s, a, sound);
    forall x | x != a && !Flag(s.config, x)
      ensures !Flag(EnableStep(s, a, sound).state.config, x)
    {
      FlagOfPersisted(s.config, D, false, x);
      FlagOfUpdate(Persisted(s.config, D, false), a, true, x);
    }
  }

  /** The batch loop sets no flag to True except those of its members. */
  lemma {:induction false} BatchRaisesOnlyMembers(s: State, members: seq<Option<string>>)
    requires Registered(s.modules, members)
    ensures forall x :: Some(x) !in members && !Flag(s.config, x) ==>
      !Flag(BatchEach(s, members).state.config, x)
    decreases |members|
  {
    if members != [] {
      var k := |members| - 1;
      var front := members[..k];
      assert members == front + [members[k]];
      BatchRaisesOnlyMembers(s, front);
      var prev := BatchEach(s, front);
      if members[k].Some? && members[k].value !in prev.incompatible {
        EnableRaisesOnlyTarget(prev.state, members[k].value, true);
      }
    }
  }

  /** enable_modules with disableOthers: every module that was enabled before and
      is not a member of the batch has its flag persisted as False afterwards. */
  lemma EnableModulesPersistsOthersOff(s: State, members: seq<Option<string>>)
    requires WellFormed(s) && Registered(s.modules, members)
    ensures var r := EnableModulesStep(s, members, true).state;
      forall n :: n in s.modules && s.modules[n].enabled && Some(n) !in members ==> !Flag(r.config, n)
  {
    var pre := DisableAllStep(s, false);
    DisableAllEffect(s, false);
    BatchRaisesOnlyMembers(pre.state, members);
    forall n | n in s.modules && s.modules[n].enabled
      ensures !Flag(pre.state.config, n)
    {
      FlagOfPersisted(s.config, EnabledSet(s.modules), false, n);
    }
  }

  // ---------------------------------------------------------------------------
  // unload

  lemma {:induction false} DistinctCard<T>(xs: seq<T>)
    requires Distinct(xs)
    ensures |set x | x in xs| == |xs|
    decreases |xs|
  {
    if xs != [] {
      var k := |xs| - 1;
      DistinctCard(xs[..k]);
      assert xs == xs[..k] + [xs[k]];
      assert (set x | x in xs) == (set x | x in xs[..k]) + {xs[k]};
      assert xs[k] !in xs[..k];
    }
  }

  /** The iteration order has exactly as many entries as the table. */
  lemma OrderCoversTable(s: State)
    requires WellFormed(s)
    ensures |s.order| == |s.modules|
  {
    DistinctCard(s.order);
    assert (set x | x in s.order) == s.modules.Keys;
  }

  // ---------------------------------------------------------------------------
  // import_dynamic_modules

  lemma NewNamesOfPrefix(found: seq<Package>, sysModules: set<string>, k: nat)
    requires k < |found|
    ensures forall i :: 0 <= i < k ==> (IsNew(found[..k], sysModules, i) <==> IsNew(found, sysModules, i))
    ensures NewNames(found[..k + 1], sysModules) ==
      NewNames(found[..k], sysModules) + (if IsNew(found, sysModules, k) then {found[k].name} else {})
  {
    var pre, next := found[..k], found[..k + 1];
    assert forall i :: 0 <= i <= k ==> (IsNew(next, sysModules, i) <==> IsNew(found, sysModules, i));
    assert forall i :: 0 <= i < k ==> (IsNew(pre, sysModules, i) <==> IsNew(found, sysModules, i));
  }

  /** Importing one module adds its name to the table and keeps the order well formed. */
  lemma ImportOneShape(s: State, p: Package)
    ensures var r := ImportOne(s, p).state;
      && r.modules.Keys == s.modules.Keys + {p.name}
      && (WellFormed(s) ==> WellFormed(r))
  {
    var reg := s.(modules := s.modules[p.name := DynModule(p.incompatible, false)],
                  order := if p.name in s.order then s.order else s.order + [p.name]);
    if WellFormed(s) && p.name !in s.order {
      assert (set n | n in reg.order) == (set n | n in s.order) + {p.name};
    }
  }

  /** Discovery registers exactly the modules of the packages not already loaded
      (the registry keeps every earlier entry), and keeps the iteration order a
      list of the registered names without repetition. */
  lemma {:induction false} ImportEachShape(s: State, found: seq<Package>, sysModules: set<string>)
    ensures var r := ImportEach(s, found, sysModules).state;
      && r.modules.Keys == s.modules.Keys + NewNames(found, sysModules)
      && (WellFormed(s) ==> WellFormed(r))
    decreases |found|
  {
    if found == [] {
      assert NewNames(found, sysModules) == {};
    } else {
      var k := |found| - 1;
      ImportEachShape(s, found[..k], sysModules);
      NewNamesOfPrefix(found, sysModules, k);
      assert found[..k + 1] == found;
      if IsNew(found, sysModules, k) {
        ImportOneShape(ImportEach(s, found[..k], sysModules).state, found[k]);
      }
    }
  }

  /** The table after the body of the discovery loop for a package that was not
      loaded yet: the module is registered with its own incompatible names and ends
      enabled exactly when its persisted flag is True; then the registered modules
      it lists are disabled, and with the flag False or absent no other module
      changes. */
  lemma ImportOneModules(s: State, p: Package)
    ensures var r := ImportOne(s, p).state;
      var f := Flag(s.config, p.name);
      && r.modules[p.name] == DynModule(p.incompatible, f)
      && (!f ==> r.modules == s.modules[p.name := DynModule(p.incompatible, false)])
      && (f ==> forall n :: n in s.modules && n != p.name ==>
                  r.modules[n] == s.modules[n].(enabled := s.modules[n].enabled && n !in p.incompatible))
  {
    var reg := s.(modules := s.modules[p.name := DynModule(p.incompatible, false)],
                  order := if p.name in s.order then s.order else s.order + [p.name]);
    if Flag(s.config, p.name) {
      EnableStepEffect(reg, p.name, false);
    }
  }

  /** The body of the discovery loop for a package that was not loaded yet: the
      module is registered with its own incompatible names and ends enabled exactly
      when its persisted flag is True, which is then rewritten as True; the flags of
      names that were not registered are not touched; the only "enabled" notification
      is the one for this module, without sound; with the flag False or absent,
      nothing else happens. */
  lemma ImportOneEffect(s: State, p: Package)
    ensures var r := ImportOne(s, p);
      var f := Flag(s.config, p.name);
      && r.state.modules[p.name] == DynModule(p.incompatible, f)
      && Flag(r.state.config, p.name) == f
      && (forall x :: x != p.name && x !in s.modules ==> Flag(r.state.config, x) == Flag(s.config, x))
      && (f ==> ModuleEnabled(p.name, false) in r.notices)
      && (forall e :: e in r.notices && e.ModuleEnabled? ==> e == ModuleEnabled(p.name, false) && f)
      && (!f ==> r.notices == [] && r.state.config == s.config && r.state.saves == s.saves)
      && (!f ==> r.state.modules == s.modules[p.name := DynModule(p.incompatible, false)])
      && (f ==> forall n :: n in s.modules && n != p.name ==>
                  r.state.modules[n] == s.modules[n].(enabled := s.modules[n].enabled && n !in p.incompatible))
  {
    ImportOneModules(s, p);
    var reg := s.(modules := s.modules[p.name := DynModule(p.incompatible, false)],
                  order := if p.name in s.order then s.order else s.order + [p.name]);
    if Flag(s.config, p.name) {
      var L := p.incompatible;
      var D := EnabledAmong(reg.modules, L);
      EnableStepEffect(reg, p.name, false);
      ConflictNoticesAreTransitions(reg, L);
      var r := EnableStep(reg, p.name, false);
      assert r.notices[|r.notices| - 1] == ModuleEnabled(p.name, false);
      FlagOfUpdate(Persisted(reg.config, D, false), p.name, true, p.name);
      forall x | x != p.name && x !in s.modules
        ensures Flag(r.state.config, x) == Flag(s.config, x)
      {
        FlagOfPersisted(reg.config, D, false, x);
        FlagOfUpdate(Persisted(reg.config, D, false), p.name, true, x);
      }
    }
  }

  /** Packages that are all in sys.modules already register nothing and change nothing. */
  lemma {:induction false} ImportSkipsLoaded(s: State, found: seq<Package>, sysModules: set<string>)
    requires forall i :: 0 <= i < |found| ==> found[i].packageName in sysModules
    ensures ImportEach(s, found, sysModules) == Step(s, [])
    decreases |found|
  {
    if found != [] {
      ImportSkipsLoaded(s, found[..|found| - 1], sysModules);
    }
  }

  /** The startup replay. When the newly loaded packages carry distinct module names
      that were not registered before, each new module's enable_module is replayed
      (an "enabled" notification without sound) exactly when its persisted flag is
      True, no other module is announced as enabled, and the flags of names that
      stay unregistered are left as they were. */
  lemma {:induction false} ImportReplay(s: State, found: seq<Package>, sysModules: set<string>)
    requires forall i :: 0 <= i < |found| && IsNew(found, sysModules, i) ==> found[i].name !in s.modules
    requires forall i, j :: 0 <= i < j < |found| && IsNew(found, sysModules, i) && IsNew(found, sysModules, j) ==>
      found[i].name != found[j].name
    ensures var r := ImportEach(s, found, sysModules);
      && (forall x :: x !in r.state.modules ==> Flag(r.state.config, x) == Flag(s.config, x))
      && (forall e :: e in r.notices && e.ModuleEnabled? ==> !e.sound && Flag(s.config, e.name))
      && (forall i :: 0 <= i < |found| && IsNew(found, sysModules, i) ==>
            (ModuleEnabled(found[i].name, false) in r.notices <==> Flag(s.config, found[i].name)))
    decreases |found|
  {
    if found != [] {
      var k := |found| - 1;
      var front := found[..k];
      NewNamesOfPrefix(found, sysModules, k);
      ImportReplay(s, front, sysModules);
      ImportEachShape(s, front, sysModules);
      assert found[..k + 1] == found;
      var prev := ImportEach(s, front, sysModules);
      if IsNew(found, sysModules, k) {
        var p := found[k];
        ImportOneEffect(prev.state, p);
      }
    }
  }

  // ---------------------------------------------------------------------------
  // Mutual declarations

  /** Disabling modules, with the table's names and lists unchanged, cannot create
      an enabled pair that declares each other incompatible. */
  lemma OnlyDisablingKeepsNoMutualConflict(before: map<string, DynModule>, after: map<string, DynModule>)
    requires NoMutualConflict(before) && after.Keys == before.Keys
    requires forall n :: n in before ==>
      after[n].incompatible == before[n].incompatible && (after[n].enabled ==> before[n].enabled)
    ensures NoMutualConflict(after)
  {
  }

  /** Enabling A keeps the invariant: every module A lists is disabled afterwards,
      and every other module ends no more enabled than before. */
  lemma EnableKeepsNoMutualConflict(s: State, a: string, sound: bool)
    requires a in s.modules && NoMutualConflict(s.modules)
    ensures NoMutualConflict(EnableStep(s, a, sound).state.modules)
  {
    EnableStepEffect(s, a, sound);
  }

  /** disable_module keeps the invariant. */
  lemma DisableKeepsNoMutualConflict(s: State, a: string, sound: bool)
    requires a in s.modules && NoMutualConflict(s.modules)
    ensures NoMutualConflict(DisableStep(s, a, sound).state.modules)
  {
  }

  /** The batch loop keeps the invariant. */
  lemma {:induction false} BatchKeepsNoMutualConflict(s: State, members: seq<Option<string>>)
    requires Registered(s.modules, members) && NoMutualConflict(s.modules)
    ensures NoMutualConflict(BatchEach(s, members).state.modules)
    decreases |members|
  {
    if members != [] {
      var k := |members| - 1;
      BatchKeepsNoMutualConflict(s, members[..k]);
      var prev := BatchEach(s, members[..k]);
      if members[k].Some? && members[k].value !in prev.incompatible {
        EnableKeepsNoMutualConflict(prev.state, members[k].value, true);
      }
    }
  }

  /** enable_modules keeps the invariant, with or without disableOthers. */
  lemma EnableModulesKeepsNoMutualConflict(s: State, members: seq<Option<string>>, disableOthers: bool)
    requires WellFormed(s) && Registered(s.modules, members) && NoMutualConflict(s.modules)
    ensures NoMutualConflict(EnableModulesStep(s, members, disableOthers).state.modules)
  {
    var pre := if disableOthers then DisableAllStep(s, false) else Tally(s, 0, []);
    if disableOthers {
      DisableAllEffect(s, false);
      OnlyDisablingKeepsNoMutualConflict(s.modules, pre.state.modules);
    }
    BatchKeepsNoMutualConflict(pre.state, members);
  }

  /** The discovery loop keeps the invariant: a module registered afresh is disabled. */
  lemma {:induction false} ImportKeepsNoMutualConflict(s: State, found: seq<Package>, sysModules: set<string>)
    requires NoMutualConflict(s.modules)
    ensures NoMutualConflict(ImportEach(s, found, sysModules).state.modules)
    decreases |found|
  {
    if found != [] {
      var k := |found| - 1;
      ImportKeepsNoMutualConflict(s, found[..k], sysModules);
      var prev := ImportEach(s, found[..k], sysModules).state;
      if IsNew(found, sysModules, k) {
        var p := found[k];
        var reg := prev.(modules := prev.modules[p.name := DynModule(p.incompatible, false)],
                         order := if p.name in prev.order then prev.order else prev.order + [p.name]);
        assert NoMutualConflict(reg.modules);
        if Flag(reg.config, p.name) {
          EnableKeepsNoMutualConflict(reg, p.name, false);
        }
      }
    }
  }

  /** The conflict loop keeps the invariant. */
  lemma ConflictKeepsNoMutualConflict(s: State, names: seq<string>)
    requires NoMutualConflict(s.modules)
    ensures NoMutualConflict(ConflictStep(s, names).state.modules)
  {
    ConflictStepModules(s, names);
    OnlyDisablingKeepsNoMutualConflict(s.modules, ConflictStep(s, names).state.modules);
  }

  /** disable_all_modules keeps the invariant. */
  lemma DisableAllKeepsNoMutualConflict(s: State, sound: bool)
    requires WellFormed(s) && NoMutualConflict(s.modules)
    ensures NoMutualConflict(DisableAllStep(s, sound).state.modules)
  {
    DisableAllEffect(s, sound);
    OnlyDisablingKeepsNoMutualConflict(s.modules, DisableAllStep(s, sound).state.modules);
  }

  // ---------------------------------------------------------------------------
  // Persisted flags mirror the table

  /** enable_module leaves every registered flag equal to its module's state. It
      needs the flags to agree beforehand, except that of a disabled target. */
  lemma EnableKeepsMirrors(s: State, a: string, sound: bool)
    requires a in s.modules
    requires forall n :: n in s.modules && (n != a || s.modules[n].enabled) ==>
      Flag(s.config, n) == s.modules[n].enabled
    ensures Mirrors(EnableStep(s, a, sound).state)
  {
    var L := s.modules[a].incompatible;
    var D := EnabledAmong(s.modules, L);
    var transition := !s.modules[a].enabled || a in L;
    EnableStepEffect(s, a, sound);
    var r := EnableStep(s, a, sound).state;
    forall n | n in r.modules
      ensures Flag(r.config, n) == r.modules[n].enabled
    {
      FlagOfPersisted(s.config, D, false, n);
      if transition {
        FlagOfUpdate(Persisted(s.config, D, false), a, true, n);
      }
    }
  }

  /** disable_module keeps the persisted flags equal to the table. */
  lemma DisableKeepsMirrors(s: State, a: string, sound: bool)
    requires a in s.modules && Mirrors(s)
    ensures Mirrors(DisableStep(s, a, sound).state)
  {
    DisableStepEffect(s, a, sound);
    var r := DisableStep(s, a, sound).state;
    forall n | n in r.modules
      ensures Flag(r.config, n) == r.modules[n].enabled
    {
      FlagOfUpdate(s.config, a, false, n);
    }
  }

  /** disable_all_modules keeps the persisted flags equal to the table. */
  lemma DisableAllKeepsMirrors(s: State, sound: bool)
    requires WellFormed(s) && Mirrors(s)
    ensures Mirrors(DisableAllStep(s, sound).state)
  {
    DisableAllEffect(s, sound);
    var r := DisableAllStep(s, sound).state;
    forall n | n in r.modules
      ensures Flag(r.config, n) == r.modules[n].enabled
    {
      FlagOfPersisted(s.config, EnabledSet(s.modules), false, n);
    }
  }

  /** The conflict loop keeps the persisted flags equal to the table. */
  lemma ConflictKeepsMirrors(s: State, names: seq<string>)
    requires Mirrors(s)
    ensures Mirrors(ConflictStep(s, names).state)
  {
    ConflictStepEffect(s, names);
    var r := ConflictStep(s, names).state;
    forall n | n in r.modules
      ensures Flag(r.config, n) == r.modules[n].enabled
    {
      FlagOfPersisted(s.config, EnabledAmong(s.modules, names), false, n);
    }
  }

  /** The batch loop keeps the persisted flags equal to the table. */
  lemma {:induction false} BatchKeepsMirrors(s: State, members: seq<Option<string>>)
    requires Registered(s.modules, members) && Mirrors(s)
    ensures Mirrors(BatchEach(s, members).state)
    decreases |members|
  {
    if members != [] {
      var k := |members| - 1;
      BatchKeepsMirrors(s, members[..k]);
      var prev := BatchEach(s, members[..k]);
      if members[k].Some? && members[k].value !in prev.incompatible {
        EnableKeepsMirrors(prev.state, members[k].value, true);
      }
    }
  }

  /** enable_modules keeps the persisted flags equal to the table. */
  lemma EnableModulesKeepsMirrors(s: State, members: seq<Option<string>>, disableOthers: bool)
    requires WellFormed(s) && Registered(s.modules, members) && Mirrors(s)
    ensures Mirrors(EnableModulesStep(s, members, disableOthers).state)
  {
    var pre := if disableOthers then DisableAllStep(s, false) else Tally(s, 0, []);
    if disableOthers {
      DisableAllKeepsMirrors(s, false);
    }
    BatchKeepsMirrors(pre.state, members);
  }

  /** Registering one module, disabled, and replaying its flag keeps the persisted
      flags equal to the table: the new module's own flag agrees before the replay
      unless it is True, which is the exception EnableKeepsMirrors allows. */
  lemma ImportOneKeepsMirrors(s: State, p: Package)
    requires Mirrors(s)
    ensures Mirrors(ImportOne(s, p).state)
  {
    var reg := s.(modules := s.modules[p.name := DynModule(p.incompatible, false)],
                  order := if p.name in s.order then s.order else s.order + [p.name]);
    if Flag(reg.config, p.name) {
      EnableKeepsMirrors(reg, p.name, false);
    }
  }

  /** The discovery loop keeps the invariant; as the empty table satisfies it, the
      state after start-up records in its configuration exactly which modules are
      enabled. */
  lemma {:induction false} ImportKeepsMirrors(s: State, found: seq<Package>, sysModules: set<string>)
    requires Mirrors(s)
    ensures Mirrors(ImportEach(s, found, sysModules).state)
    decreases |found|
  {
    if found != [] {
      var k := |found| - 1;
      ImportKeepsMirrors(s, found[..k], sysModules);
      if IsNew(found, sysModules, k) {
        ImportOneKeepsMirrors(ImportEach(s, found[..k], sysModules).state, found[k]);
      }
    }
  }
}
