# Dynamic grammar manager — a verified model

This project models the dynamic manager of the Dragonfly command modules
(`command-modules/_dynamic_manager.py`). The manager keeps a table
(`moduleMapping`) from the name of each dynamic grammar module to the module. Each
module has an enabled flag and a list of names it declares incompatible
(`INCOMPATIBLE_MODULES`). The manager also keeps a configuration in which the flag
of module `N` is persisted under the key `"dynamics.N"`. It offers these operations:

- enable one module, after disabling the registered modules it lists;
- disable one module;
- disable every module;
- show every module's status;
- enable a batch of up to three modules;
- load the modules found on the `dynamics` path at start-up and re-enable the ones persisted as enabled;
- call `unload()` on every module at unload time.

The model has four files:

- `registry.dfy` (module `Registry`) gives the table, the configuration and the
  number of saves as a value `State`. Each operation is a function from a state to
  a new state plus the notifications it emits, in order (`Notice`, with whether a
  sound is played). Each loop of the source is a recursive function that peels
  off the last element, so a loop that has handled `i` items is in the state that
  function gives for the first `i` items.
- `manager.dfy` (module `Manager`) is the class `DynamicManager`. Its fields
  `moduleMapping`, `order`, `config` and `saves` are updated in place by methods
  that run the source's loops. Each method is proved to end in the state the
  matching `Registry` function gives.
- `properties.dfy` (module `RegistryProperties`) proves what the operations
  achieve, against definitions that do not follow the loops:
  - `EnabledAmong` / `EnabledSet`: which modules are enabled;
  - `Persisted`: which keys are written;
  - `NoMutualConflict` and `Mirrors`: which invariants hold.
- `scenarios.dfy` (module `Scenarios`) gives concrete runs: a `dictation` and a
  `command` module, and a start-up replay of three modules A, B and C.

A module object from the `dynamics` package is modelled by its observable contract:
- `dynamic_enable()` reports a transition exactly when the module was disabled, and then enables it;
- `dynamic_disable()` is the mirror image.

The "already enabled" branch of `enable_module` relies on exactly this contract.

Incompatibility is one-sided in the code. Enabling A disables only the registered
modules that A itself lists. A module that lists A but is not listed by A stays
enabled (`Scenarios.OneSidedDeclarationKeepsBoth`). This fits the module's own
description, under which each module keeps track of what it is incompatible with.
It does not give a symmetric relation under which two incompatible modules are
never enabled together. The model follows the code. What holds is the invariant
`NoMutualConflict`: no two enabled modules list each other. Each operation
that changes the table (the conflict loop, enable, disable, disable-all, the batch
and the discovery loop) has a lemma saying it preserves it.

The configuration mirrors the table between operations (`Mirrors`): the persisted
flag of every registered module equals its enabled state. Each of the same
operations preserves this, and the empty table at start-up satisfies it. So
after the discovery loop the configuration records which modules are enabled,
including the modules disabled by a later one during the replay.

Replaying a configuration at start-up follows the same one-sided rule, in discovery
order. Suppose A and C are both persisted as enabled.
- If A and C list each other, C is loaded later and disables A. A's flag is
  rewritten as False (`Scenarios.RestartResolvesConflict`).
- If only A lists C, C is not registered yet when A is enabled. Enabling C later
  consults only C's own empty list. Both modules end enabled
  (`Scenarios.RestartOneSidedKeepsBoth`). Under a symmetric reading of
  incompatibility exactly one of them would survive the restart. The code does
  not follow that reading.

A batch of `enable_modules` skips a member whose name an earlier member listed.
That member ends disabled, because the earlier member disabled it and the batch
enables nothing else later. The one exception is a module that lists itself
(`RegistryProperties.BatchSkippedEndsDisabled`).

## Model

| member | source | states |
|---|---|---|
| Registry.DisableStep | command-modules/_dynamic_manager.py:91-101 | disable_module never adds or removes a module, never reorders the table and never changes an incompatibility list |
| Registry.ConflictStep | command-modules/_dynamic_manager.py:104-110 | the conflict loop keeps the table's names, order and lists |
| Registry.EnableStep | command-modules/_dynamic_manager.py:74-88 | enable_module keeps the table's shape, and the target module is enabled afterwards |
| Registry.EnableModuleStep | command-modules/_dynamic_manager.py:74-77 | enable_module on None changes nothing and emits nothing |
| Registry.DisableModuleStep | command-modules/_dynamic_manager.py:91-94 | disable_module on None changes nothing and emits nothing |
| Registry.DisableEach | command-modules/_dynamic_manager.py:139-144 | the loop of disable_all_modules keeps the table's shape and performs no save |
| Registry.DisableAllStep | command-modules/_dynamic_manager.py:134-151 | disable_all_modules keeps the table's shape |
| Registry.BatchEach | command-modules/_dynamic_manager.py:171-180 | the batch loop of enable_modules keeps the table's shape |
| Registry.EnableModulesStep | command-modules/_dynamic_manager.py:168-180 | enable_modules keeps the table's shape |
| Registry.ImportEach | command-modules/_dynamic_manager.py:119-128 | the discovery loop keeps every earlier entry registered and in its place in the iteration order |
| Registry.ImportOne | command-modules/_dynamic_manager.py:122-128 | a newly loaded package's module is registered under its DYN_MODULE_NAME |
| Manager.DynamicManager.constructor | command-modules/_dynamic_manager.py:36 | the manager starts with an empty table over the persisted configuration, in a well-formed state |
| Manager.DynamicManager.DisableModule | command-modules/_dynamic_manager.py:91-101 | updating the fields in place gives exactly the state and notifications of DisableModuleStep, and keeps the table well formed |
| Manager.DynamicManager.DisableIncompatibleModules | command-modules/_dynamic_manager.py:104-110 | the loop over the target's INCOMPATIBLE_MODULES ends in the state and notifications of ConflictStep, and keeps the table well formed |
| Manager.DynamicManager.DisableIfRegistered | command-modules/_dynamic_manager.py:108-110 | a name without a table entry changes nothing and emits nothing; a registered module is disabled with sound, as DisableStep gives |
| Manager.DynamicManager.EnableModule | command-modules/_dynamic_manager.py:74-88 | ends in the state and notifications of EnableModuleStep, and keeps the table well formed; a named target is enabled afterwards |
| Manager.DynamicManager.DisableEachModule | command-modules/_dynamic_manager.py:137-144 | the loop with its running disableCount ends in the state, count and notifications of DisableEach |
| Manager.DynamicManager.DisableAllModules | command-modules/_dynamic_manager.py:134-151 | ends in the state of DisableAllStep; disableCount is the number of modules enabled beforehand; afterwards no module is enabled |
| Manager.DynamicManager.ShowModuleStatus | command-modules/_dynamic_manager.py:154-165 | changes nothing; reports one notification per module in table order, "enabled" exactly for the enabled modules |
| Manager.DynamicManager.EnableEachModule | command-modules/_dynamic_manager.py:171-180 | the loop that extends incompatibleModules ends in the state and notifications of BatchEach |
| Manager.DynamicManager.EnableModules | command-modules/_dynamic_manager.py:168-180 | with or without disableOthers, ends in the state and notifications of EnableModulesStep, and keeps the table well formed |
| Manager.DynamicManager.LoadModule | command-modules/_dynamic_manager.py:122-128 | registering one loaded module, then replaying enable_module when its flag is True, gives ImportOne |
| Manager.DynamicManager.ImportDynamicModules | command-modules/_dynamic_manager.py:113-128 | the discovery loop, with sys.modules growing as packages load, ends in the state of ImportEach and keeps the table well formed |
| Manager.DynamicManager.Unload | command-modules/_dynamic_manager.py:257-263 | unload() is called once on every registered module, whatever its state, and on nothing else |
| RegistryProperties.DisableStepEffect | command-modules/_dynamic_manager.py:91-101 | the module ends disabled; False is persisted and saved only on a real transition; an already-disabled module changes nothing and emits nothing; no other module changes |
| RegistryProperties.ConflictStepEffect | command-modules/_dynamic_manager.py:104-110 | exactly the registered listed modules end disabled; exactly the ones that were enabled get False persisted, each with a save and a "disabled" notification with sound; the loop emits no other notification; unregistered names are skipped |
| RegistryProperties.ConflictAnnouncesEach | command-modules/_dynamic_manager.py:107-110 | every listed module that was enabled is announced as disabled, with sound |
| RegistryProperties.ConflictNoticesAreTransitions | command-modules/_dynamic_manager.py:104-110 | every notification of the conflict loop announces, with sound, the disabling of a listed module that was enabled (also during the start-up replay, which passes useSound=False only to enable_module) |
| RegistryProperties.EnableStepEffect | command-modules/_dynamic_manager.py:74-88 | the whole effect of enable_module: the final module table, the configuration, the save count and the notifications |
| RegistryProperties.EnableResolvesConflicts | command-modules/_dynamic_manager.py:79-80 | after enabling A, A is enabled and no registered module A lists (other than A) is enabled |
| RegistryProperties.EnablePersistsOnlyTransitions | command-modules/_dynamic_manager.py:80-88 | True is persisted and announced exactly on a transition; otherwise A's key is untouched and the last notification is "already enabled" |
| RegistryProperties.EnableAlreadyEnabledIsNoOp | command-modules/_dynamic_manager.py:80-88 | enabling an enabled module with no enabled conflicts changes nothing and only reports "already enabled" |
| RegistryProperties.EnableFrame | command-modules/_dynamic_manager.py:74-110 | enable touches no module and no flag outside the target and the modules it lists |
| RegistryProperties.DisableEachEffect | command-modules/_dynamic_manager.py:139-144 | the loop disables exactly the given modules, persists False for the ones that were enabled and counts exactly them |
| RegistryProperties.DisableEachNotices | command-modules/_dynamic_manager.py:139-144 | the loop announces, without sound, every listed module that was enabled, and emits nothing else |
| RegistryProperties.DisableEachCountsNotices | command-modules/_dynamic_manager.py:139-144 | the loop emits one notification per module it counts |
| RegistryProperties.DisableAllNotices | command-modules/_dynamic_manager.py:134-151 | one notification without sound per module that was enabled, then the aggregate one or "none enabled" |
| RegistryProperties.DisableAllEffect | command-modules/_dynamic_manager.py:134-151 | disableCount equals the number of modules enabled before; none is enabled after; exactly those get False; one save only when the count is positive; nothing changes when none was enabled |
| RegistryProperties.OrderCoversTable | command-modules/_dynamic_manager.py:261-263 | a well-formed iteration order has exactly as many entries as the table, so unload visits each module once |
| RegistryProperties.EnableEnablesOnlyTarget | command-modules/_dynamic_manager.py:74-88 | enable_module enables no module other than its target |
| RegistryProperties.BatchEnablesOnlyMembers | command-modules/_dynamic_manager.py:171-180 | the batch loop enables no module that is not a member of the batch |
| RegistryProperties.BatchStepKeepsListedDisabled | command-modules/_dynamic_manager.py:173-180 | one more batch member keeps an accumulated incompatible name listed and its module disabled |
| RegistryProperties.BatchKeepsListedDisabled | command-modules/_dynamic_manager.py:172-180 | once a name is accumulated and its module is disabled, the rest of the batch keeps it so |
| RegistryProperties.BatchSkipsListed | command-modules/_dynamic_manager.py:175-180 | a member whose name was already accumulated is skipped with a message and changes nothing else; if it is disabled at that point it is still disabled at the end (BatchSkippedEndsDisabled shows it is, unless it lists itself) |
| RegistryProperties.BatchListedDisabled | command-modules/_dynamic_manager.py:171-180 | at the end of the batch, every accumulated incompatible name whose module does not list itself is disabled |
| RegistryProperties.BatchSkippedEndsDisabled | command-modules/_dynamic_manager.py:175-180 | a skipped member ends disabled unless its module lists itself |
| RegistryProperties.EnableModulesOnly | command-modules/_dynamic_manager.py:168-177 | with disableOthers, only batch members are enabled afterwards |
| RegistryProperties.EnableRaisesOnlyTarget | command-modules/_dynamic_manager.py:74-88 | enable_module persists True for no module other than its target |
| RegistryProperties.BatchRaisesOnlyMembers | command-modules/_dynamic_manager.py:171-180 | the batch loop persists True only for its own members |
| RegistryProperties.EnableModulesPersistsOthersOff | command-modules/_dynamic_manager.py:168-180 | with disableOthers, every module that was enabled before and is not a member has its flag False afterwards |
| RegistryProperties.ImportOneShape | command-modules/_dynamic_manager.py:124 | registering a module adds exactly its name and keeps the order well formed |
| RegistryProperties.ImportEachShape | command-modules/_dynamic_manager.py:119-124 | exactly the modules of packages not in sys.modules are registered; earlier entries remain |
| RegistryProperties.ImportOneModules | command-modules/_dynamic_manager.py:124-128 | the new module is registered with its own list, enabled iff its flag is True; with the flag on, every other registered module it lists ends disabled and the rest are unchanged; with the flag off, only the new entry changes |
| RegistryProperties.ImportOneEffect | command-modules/_dynamic_manager.py:124-128 | a newly registered module ends enabled iff its flag is True (an absent key means False); the flag is rewritten unchanged; with the flag on, the modules it lists are disabled and the only "enabled" notification is its own, without sound; with the flag off nothing else happens |
| RegistryProperties.ImportSkipsLoaded | command-modules/_dynamic_manager.py:121 | a list of packages that are all in sys.modules already registers nothing and changes nothing; for a list mixing loaded and new packages, ImportEachShape states that only the new ones are registered |
| RegistryProperties.ImportReplay | command-modules/_dynamic_manager.py:119-128 | with distinct new module names, enable_module is replayed without sound for a new module exactly when its persisted flag is True, and for no other module |
| RegistryProperties.OnlyDisablingKeepsNoMutualConflict | command-modules/_dynamic_manager.py:104-110 | turning modules off cannot create an enabled pair that lists each other |
| RegistryProperties.EnableKeepsNoMutualConflict | command-modules/_dynamic_manager.py:74-88 | enable_module preserves NoMutualConflict |
| RegistryProperties.DisableKeepsNoMutualConflict | command-modules/_dynamic_manager.py:91-101 | disable_module preserves NoMutualConflict |
| RegistryProperties.BatchKeepsNoMutualConflict | command-modules/_dynamic_manager.py:171-180 | the batch loop preserves NoMutualConflict |
| RegistryProperties.EnableModulesKeepsNoMutualConflict | command-modules/_dynamic_manager.py:168-180 | enable_modules preserves NoMutualConflict |
| RegistryProperties.ImportKeepsNoMutualConflict | command-modules/_dynamic_manager.py:113-128 | the discovery loop preserves NoMutualConflict |
| RegistryProperties.ConflictKeepsNoMutualConflict | command-modules/_dynamic_manager.py:104-110 | the conflict loop preserves NoMutualConflict |
| RegistryProperties.DisableAllKeepsNoMutualConflict | command-modules/_dynamic_manager.py:134-151 | disable_all_modules preserves NoMutualConflict |
| RegistryProperties.EnableKeepsMirrors | command-modules/_dynamic_manager.py:74-88 | after enable_module every registered module's persisted flag equals its state, given that this held before except perhaps for a disabled target |
| RegistryProperties.ConflictKeepsMirrors | command-modules/_dynamic_manager.py:104-110 | the conflict loop preserves Mirrors |
| RegistryProperties.DisableKeepsMirrors | command-modules/_dynamic_manager.py:91-101 | disable_module preserves Mirrors |
| RegistryProperties.DisableAllKeepsMirrors | command-modules/_dynamic_manager.py:134-151 | disable_all_modules preserves Mirrors |
| RegistryProperties.BatchKeepsMirrors | command-modules/_dynamic_manager.py:171-180 | the batch loop preserves Mirrors |
| RegistryProperties.EnableModulesKeepsMirrors | command-modules/_dynamic_manager.py:168-180 | enable_modules preserves Mirrors |
| RegistryProperties.ImportOneKeepsMirrors | command-modules/_dynamic_manager.py:122-128 | registering one module and replaying its flag preserves Mirrors |
| RegistryProperties.ImportKeepsMirrors | command-modules/_dynamic_manager.py:113-128 | the discovery loop preserves Mirrors, so after start-up the configuration records exactly which modules are enabled |
| Scenarios.SwitchModes | command-modules/_dynamic_manager.py:74-110 | enabling command and then dictation, which list each other: command is disabled and persisted False before dictation is enabled, with three saves |
| Scenarios.OneSidedDeclarationKeepsBoth | command-modules/_dynamic_manager.py:104-110 | only the list of the module being enabled is consulted, so a one-sided declaration leaves both modules enabled |
| Scenarios.BatchOfConflictingModes | command-modules/_dynamic_manager.py:168-180 | a batch of two modules that list each other enables the first and skips the second |
| Scenarios.RestartResolvesConflict | command-modules/_dynamic_manager.py:113-128 | replaying flags A and C True, B False, where A and C list each other and are discovered A, B, C: C ends enabled, A and B disabled, and A's flag is rewritten False |
| Scenarios.RestartOneSidedKeepsBoth | command-modules/_dynamic_manager.py:104-128 | the same replay where only A lists C: A and C both end enabled with their flags True |

## Left out

- Speech-grammar binding: the modules' grammar objects are not part of this model. This covers `SeriesMappingRule`, `series_rule`, its extras and `grammar.load()` / `grammar.unload()` (lines 183-222, 248-251, 265-268).
- File-modification hot reload in `DynamicManagerGrammar._process_begin` (lines 227-245): filesystem I/O.
- Sound and printing (`notify*`, lines 39-71, and the prints of the loops):
  - each is a `Notice` value;
  - enabled and disabled notices record whether a sound is played;
  - "already enabled" always plays one: line 87 does not pass on enable_module's useSound, so the default of line 53 applies;
  - "none enabled" and "incompatible with previous" are only printed (lines 151, 179);
  - the start-up `notify()` at line 254 and the prints of the import loop are left out;
  - the aggregate sound of `disable_all_modules` is `AllDisabled(sound)`.
- Package discovery and loading through `pkgutil` and `sys.modules` (lines 119-123):
  - the packages found are an input list, in discovery order;
  - the packages already loaded are an input set;
  - a package is loaded when neither that set nor an earlier package of the list has its name;
  - a package that loading another one imports as a side effect would enter sys.modules and then be skipped; such transitive imports are not modelled.
- The persistence backend: the configuration is a map from key to bool. Each `save_config` is one increment of `saves`. A failing save is not modelled, since the source does not handle one.
- The internals of the modules in the `dynamics` package are not part of this model. Only the enable/disable contract above is assumed, and a freshly loaded module starts disabled.
- Dictionary iteration order:
  - `moduleMapping.items()` and `.values()` are iterated in registration order (`order`);
  - the interpreter's own dictionary order only changes the order of notifications and `unload()` calls, not the final state.
- Manager.DynamicManager.EnableModule: takes the registered name of a module, not the module object. Every caller in the source passes a module taken from `moduleMapping`, so the model requires that name to be registered. The same holds for DisableModule and the batch members of EnableModules.
- Manager.DynamicManager.ImportDynamicModules: when two packages carry the same DYN_MODULE_NAME, the later one replaces the table entry. The earlier module object, and any grammar it had enabled, is then no longer reachable. The model keeps only the table entry.
- Manager.DynamicManager.DisableAllModules: also returns disableCount, which the source keeps local, so that the count can be stated.
- RegistryProperties.ImportReplay: states which modules are replayed under the hypothesis that the new module names are distinct and were not registered before. A later module may disable an earlier one it lists. ImportOneModules states that step by step, and ImportKeepsMirrors states the resulting configuration.
