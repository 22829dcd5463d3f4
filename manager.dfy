/** The dynamic manager as the command module keeps it: the table of loaded dynamic
    modules (moduleMapping), its iteration order, the persisted configuration and the
    number of saves, all updated in place. Each method runs the source's loop and is
    proved to end in the state the matching function of Registry gives; the properties
    of those functions are proved in RegistryProperties. */
module Manager {
  import opened Registry
  import RegistryProperties

  class DynamicManager {
    var moduleMapping: map<string, DynModule>
    var order: seq<string>
    var config: map<string, bool>
    var saves: nat

    function Snapshot(): State
      reads this
    {
      State(moduleMapping, order, config, saves)
    }

    ghost predicate Valid()
      reads this
    {
      WellFormed(Snapshot())
    }

    /** An empty table over the configuration read at start-up. */
    constructor (persisted: map<string, bool>)
      ensures Valid()
      ensures moduleMapping == map[] && order == [] && config == persisted && saves == 0
    {
      moduleMapping := map[];
      order := [];
      config := persisted;
      saves := 0;
    }

    /** disable_module */
    method DisableModule(target: Option<string>, useSound: bool) returns (notices: seq<Notice>)
      requires Valid()
      requires target.Some? ==> target.value in moduleMapping
      modifies this
      ensures Valid()
      ensures Snapshot() == DisableModuleStep(old(Snapshot()), target, useSound).state
      ensures notices == DisableModuleStep(old(Snapshot()), target, useSound).notices
    {
      notices := [];
      if target.None? {
        return;
      }
      var name := target.value;
      var m := moduleMapping[name];
      var status := m.enabled;  // dynamic_disable reports a transition
      moduleMapping := moduleMapping[name := m.(enabled := false)];
      if status {
        notices := [ModuleDisabled(name, useSound)];
        config := config[ConfigKey(name) := false];
        saves := saves + 1;
      } else {
        assert moduleMapping == old(moduleMapping);
      }
    }

    /** disable_incompatible_modules: the loop over the target's incompatible names. */
    method DisableIncompatibleModules(enableModule: string) returns (notices: seq<Notice>)
      requires Valid()
      requires enableModule in moduleMapping
      modifies this
      ensures Valid()
      ensures Snapshot() == ConflictStep(old(Snapshot()), old(moduleMapping[enableModule].incompatible)).state
      ensures notices == ConflictStep(old(Snapshot()), old(moduleMapping[enableModule].incompatible)).notices
    {
      ghost var pre := Snapshot();
      var names := moduleMapping[enableModule].incompatible;
      notices := [];
      var i := 0;
      while i < |names|
        invariant 0 <= i <= |names|
        invariant Snapshot() == ConflictStep(pre, names[..i]).state
        invariant notices == ConflictStep(pre, names[..i]).notices
      {
        ghost var prev := ConflictStep(pre, names[..i]);
        assert names[..i + 1][..i] == names[..i];
        RegistryProperties.SameShapeKeepsWellFormed(pre, Snapshot());
        var d := DisableIfRegistered(names[i]);
        assert ConflictStep(pre, names[..i + 1]) ==
          if names[i] in prev.state.modules
          then Step(DisableStep(prev.state, names[i], true).state, prev.notices + d)
          else prev;
        notices := notices + d;
        i := i + 1;
      }
      assert names[..i] == names;
      RegistryProperties.SameShapeKeepsWellFormed(pre, Snapshot());
    }

    /** The body of that loop: a name without a table entry is skipped; a registered
        module is disabled with sound. */
    method DisableIfRegistered(moduleName: string) returns (notices: seq<Notice>)
      requires Valid()
      modifies this
      ensures Valid()
      ensures moduleName !in old(moduleMapping) ==> Snapshot() == old(Snapshot()) && notices == []
      ensures moduleName in old(moduleMapping) ==>
        && Snapshot() == DisableStep(old(Snapshot()), moduleName, true).state
        && notices == DisableStep(old(Snapshot()), moduleName, true).notices
    {
      notices := [];
      if moduleName in moduleMapping {
        notices := DisableModule(Some(moduleName), true);
      }
    }

    /** enable_module */
    method EnableModule(target: Option<string>, useSound: bool) returns (notices: seq<Notice>)
      requires Valid()
      requires target.Some? ==> target.value in moduleMapping
      modifies this
      ensures Valid()
      ensures Snapshot() == EnableModuleStep(old(Snapshot()), target, useSound).state
      ensures notices == EnableModuleStep(old(Snapshot()), target, useSound).notices
      ensures target.Some? ==> moduleMapping[target.value].enabled
    {
      notices := [];
      if target.None? {
        return;
      }
      var name := target.value;
      notices := DisableIncompatibleModules(name);
      var m := moduleMapping[name];
      var status := !m.enabled;  // dynamic_enable reports a transition
      moduleMapping := moduleMapping[name := m.(enabled := true)];
      if status {
        notices := notices + [ModuleEnabled(name, useSound)];
        config := config[ConfigKey(name) := true];
        saves := saves + 1;
      } else {
        notices := notices + [AlreadyEnabled(name)];
      }
    }

    /** The loop of disable_all_modules over the table. */
    method DisableEachModule() returns (disableCount: nat, notices: seq<Notice>)
      requires forall j :: 0 <= j < |order| ==> order[j] in moduleMapping
      modifies this
      ensures Snapshot() == DisableEach(old(Snapshot()), old(order)).state
      ensures disableCount == DisableEach(old(Snapshot()), old(order)).count
      ensures notices == DisableEach(old(Snapshot()), old(order)).notices
    {
      ghost var s0 := Snapshot();
      disableCount := 0;
      notices := [];
      var i := 0;
      while i < |order|
        invariant 0 <= i <= |order|
        invariant order == s0.order
        invariant Snapshot() == DisableEach(s0, order[..i]).state
        invariant disableCount == DisableEach(s0, order[..i]).count
        invariant notices == DisableEach(s0, order[..i]).notices
      {
        assert order[..i + 1][..i] == order[..i];
        var moduleName := order[i];
        var m := moduleMapping[moduleName];
        var status := m.enabled;  // dynamic_disable reports a transition
        if status {
          moduleMapping := moduleMapping[moduleName := m.(enabled := false)];
          disableCount := disableCount + 1;
          config := config[ConfigKey(moduleName) := false];
          notices := notices + [ModuleDisabled(moduleName, false)];
        }
        i := i + 1;
      }
      assert order[..i] == order;
    }

    /** disable_all_modules; the count of modules the loop disabled is returned. */
    method DisableAllModules(useSound: bool) returns (disableCount: nat, notices: seq<Notice>)
      requires Valid()
      modifies this
      ensures Valid()
      ensures Snapshot() == DisableAllStep(old(Snapshot()), useSound).state
      ensures disableCount == DisableAllStep(old(Snapshot()), useSound).count
      ensures notices == DisableAllStep(old(Snapshot()), useSound).notices
      ensures disableCount == |RegistryProperties.EnabledSet(old(moduleMapping))|
      ensures forall n :: n in moduleMapping ==> !moduleMapping[n].enabled
    {
      assert forall j :: 0 <= j < |order| ==> order[j] in moduleMapping;
      disableCount, notices := DisableEachModule();
      if disableCount > 0 {
        saves := saves + 1;
        notices := notices + [AllDisabled(useSound)];
      } else {
        notices := notices + [NoneEnabled];
      }
      RegistryProperties.DisableAllEffect(old(Snapshot()), useSound);
    }

    /** show_module_status: one notification per module, in table order, saying
        whether it is enabled; nothing is changed. */
    method ShowModuleStatus() returns (report: seq<Notice>)
      requires Valid()
      ensures |report| == |order|
      ensures forall i :: 0 <= i < |order| ==>
        report[i] == if moduleMapping[order[i]].enabled then ModuleEnabled(order[i], false)
                     else ModuleDisabled(order[i], false)
      ensures forall n :: n in moduleMapping ==>
        (ModuleEnabled(n, false) in report <==> moduleMapping[n].enabled)
    {
      report := [];
      var i := 0;
      while i < |order|
        invariant 0 <= i <= |order|
        invariant |report| == i
        invariant forall k :: 0 <= k < i ==>
          report[k] == if moduleMapping[order[k]].enabled then ModuleEnabled(order[k], false)
                       else ModuleDisabled(order[k], false)
      {
        var moduleName := order[i];
        if moduleMapping[moduleName].enabled {
          report := report + [ModuleEnabled(moduleName, false)];
        } else {
          report := report + [ModuleDisabled(moduleName, false)];
        }
        i := i + 1;
      }
      forall n | n in moduleMapping
        ensures ModuleEnabled(n, false) in report <==> moduleMapping[n].enabled
      {
        var k :| 0 <= k < |order| && order[k] == n;
        assert report[k] == if moduleMapping[n].enabled then ModuleEnabled(n, false) else ModuleDisabled(n, false);
      }
    }

    /** The loop of enable_modules over its batch of members. */
    method EnableEachModule(modules: seq<Option<string>>) returns (notices: seq<Notice>)
      requires Valid()
      requires Registered(moduleMapping, modules)
      modifies this
      ensures Valid()
      ensures Snapshot() == BatchEach(old(Snapshot()), modules).state
      ensures notices == BatchEach(old(Snapshot()), modules).notices
    {
      ghost var pre := Snapshot();
      notices := [];
      var incompatibleModules: seq<string> := [];
      var i := 0;
      while i < |modules|
        invariant 0 <= i <= |modules|
        invariant Valid()
        invariant moduleMapping.Keys == pre.modules.Keys
        invariant Snapshot() == BatchEach(pre, modules[..i]).state
        invariant incompatibleModules == BatchEach(pre, modules[..i]).incompatible
        invariant notices == BatchEach(pre, modules[..i]).notices
      {
        assert modules[..i + 1][..i] == modules[..i];
        ghost var prev := BatchEach(pre, modules[..i]);
        if modules[i].Some? {
          var name := modules[i].value;
          if name !in incompatibleModules {
            var listed := moduleMapping[name].incompatible;
            var e := EnableModule(Some(name), true);
            notices := notices + e;
            incompatibleModules := incompatibleModules + listed;
            assert BatchEach(pre, modules[..i + 1]) ==
              Batch(EnableStep(prev.state, name, true).state, prev.incompatible + listed,
                    prev.notices + EnableStep(prev.state, name, true).notices);
          } else {
            notices := notices + [IncompatibleWithPrevious(name)];
          }
        }
        i := i + 1;
      }
      assert modules[..i] == modules;
    }

    /** enable_modules: up to three modules (None where the command named fewer). */
    method EnableModules(first: Option<string>, second: Option<string>, third: Option<string>, disableOthers: bool)
      returns (notices: seq<Notice>)
      requires Valid()
      requires Registered(moduleMapping, [first, second, third])
      modifies this
      ensures Valid()
      ensures Snapshot() == EnableModulesStep(old(Snapshot()), [first, second, third], disableOthers).state
      ensures notices == EnableModulesStep(old(Snapshot()), [first, second, third], disableOthers).notices
    {
      notices := [];
      if disableOthers {
        var _, n := DisableAllModules(false);
        notices := n;
      }
      var batch := EnableEachModule([first, second, third]);
      notices := notices + batch;
    }

    /** The body of the discovery loop for a package that was not loaded yet. */
    method LoadModule(p: Package) returns (notices: seq<Notice>)
      requires Valid()
      modifies this
      ensures Valid()
      ensures Snapshot() == ImportOne(old(Snapshot()), p).state
      ensures notices == ImportOne(old(Snapshot()), p).notices
    {
      notices := [];
      moduleMapping := moduleMapping[p.name := DynModule(p.incompatible, false)];
      if p.name !in order {
        order := order + [p.name];
      }
      assert Valid() by {
        RegistryProperties.ImportOneShape(old(Snapshot()), p);
      }
      var enabled := Flag(config, p.name);
      if enabled {
        notices := EnableModule(Some(p.name), false);
      }
    }

    /** import_dynamic_modules, with the packages the discovery found, in order,
        and the package names already in sys.modules. */
    method ImportDynamicModules(found: seq<Package>, sysModules: set<string>) returns (notices: seq<Notice>)
      requires Valid()
      modifies this
      ensures Valid()
      ensures Snapshot() == ImportEach(old(Snapshot()), found, sysModules).state
      ensures notices == ImportEach(old(Snapshot()), found, sysModules).notices
    {
      notices := [];
      var loaded := sysModules;
      var i := 0;
      while i < |found|
        invariant 0 <= i <= |found|
        invariant Valid()
        invariant loaded == sysModules + set j | 0 <= j < i :: found[j].packageName
        invariant Snapshot() == ImportEach(old(Snapshot()), found[..i], sysModules).state
        invariant notices == ImportEach(old(Snapshot()), found[..i], sysModules).notices
      {
        assert found[..i + 1][..i] == found[..i];
        var p := found[i];
        assert IsNew(found[..i + 1], sysModules, i) <==> p.packageName !in loaded;
        if p.packageName !in loaded {
          loaded := loaded + {p.packageName};
          var e := LoadModule(p);
          notices := notices + e;
        }
        i := i + 1;
      }
      assert found[..i] == found;
      RegistryProperties.ImportEachShape(old(Snapshot()), found, sysModules);
    }

    /** unload: the module-level unload() of every registered module is called, in
        table order; the names are returned in the order of the calls. */
    method Unload() returns (calls: seq<string>)
      requires Valid()
      ensures |calls| == |moduleMapping|
      ensures Distinct(calls)
      ensures forall n :: n in calls <==> n in moduleMapping
    {
      calls := [];
      var i := 0;
      while i < |order|
        invariant 0 <= i <= |order|
        invariant calls == order[..i]
      {
        calls := calls + [order[i]];
        i := i + 1;
      }
      assert calls == order;
      RegistryProperties.OrderCoversTable(Snapshot());
    }
  }
}
