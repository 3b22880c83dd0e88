# Verified model of Exordos Core

Exordos Core provisions nodes, volumes and networks and installs versioned elements from
repositories. This project models the parts of it that keep state by algorithm, and proves
what they keep. Each component has a specification on values and, where the program changes
objects in place, methods on objects that refine it.

| files | what they model |
|---|---|
| `Ipam`, `PortAllocation` | the free lists of addresses, and the loops that hand addresses out |
| `Placement`, `Scheduler`, `SchedulingRun`, `SchedulerService` | reusing idle volumes, charging storage pools, rolling back, and a whole scheduling run |
| `Versions`, `Dependencies`, `DependencyClosure` | version order, candidate selection, and the depth-first dependency search |
| `Lifecycle`, `LifecycleSteps`, `LifecycleSafety`, `NoGap`, `RepoStore` | install, uninstall, upgrade, the builder's hooks and the agent as one state machine; what each step changes; its invariants; and the methods on tables that refine its steps |
| `LatestFlag`, `LatestRefresh` | the `latest` flag, kept by a refresh and rebuilt by a migration |
| `FlatDriver`, `NetworkService`, `DhcpCrash` | the DHCP context and its two files, the reconcile pass, and crashes between the writes |
| `DnsMirror`, `DnsDomains` | the mirror of DNS records into a shared zone, and the reduced list of public domains |
| `IniText`, `IniSection`, `IniEnsure`, `IniSections` | the line editor for INI sections |
| `SchemaClosure` | copying schemas with what they refer to, and following aliases |

`dafny verify dfyconfig.toml` verifies everything.

## What the proofs found

Each of these is a branch of the code at which a plausible claim fails. The code is modelled as
it is; a lemma shows the failing case and another one says exactly when the claim holds.

- Releasing an address that is an end of a free interval inserts it a second time
  (`Ipam.ReleaseIp`). The allocator frees an address only after a failed turn, and on a dry pool
  that is the previous node's address (`PortAllocation.DryPoolHandsOutTwice`).
- `upgrade` looks at whether the element knows a runtime element, while its documentation asks for an
  installed element. Upgrading twice in a row installs two versions
  (`LifecycleSafety.UpgradingTwiceInstallsTwo`).
- Between an upgrade and its hand-over the bindings point to the old version, and the removal of the
  new one is accepted (`LifecycleSafety.RemovedBeforeHandOver`).
- The builder's release check reads the agent's report. Upgrading to a version that is still reported
  with a runtime element lets the agent delete that of an installed name (`NoGap.StaleTargetGaps`, and
  a run from an empty table in `NoGap.StaleReportGaps`). With upgrades that avoid this, nothing is asked
  of the builder, and of the agent only that it does not realise a waiting row again once the
  installed one is reported in place (`NoGap.RunsKeepRuntime`, `NoGap.LateRealisationGaps`).
- Among development versions of the same numbers the dependency search prefers the smaller suffix,
  while its documentation says "higher version number" (`Versions.OlderCandidatePreferred`).
- A refresh decides on copies fetched once. Two stale stable versions of one name can leave the name
  without a flagged version (`LatestFlag.TwoStaleVersionsLoseTheFlag`).
- The hash of the DHCP configuration is taken with a hash seeded per process, so a restart usually
  forgets the context and rebuilds it (`DhcpCrash.RestartForgets`).
- A section header on an unterminated last line is destroyed by the first line written behind it
  (`IniSections.BrokenHeader`), unless an earlier section is appended first (`IniSections.AllHoldIff`).
- In a zone without any tags a filtered read writes marked rows and a whole read unmarked ones, so the
  two differ as soon as a record is to be added (`DnsMirror.SyncedIsUniqueIff`).
- A model that the base schema already defines is put in its place without what it refers to
  (`SchemaClosure.OverwritingDangles`).

## Assumptions

- Versions in the dependency search are parsed; whether a string parses is part of its value. Versions
  in the refresh are releases in a total preorder. Addresses are integers.
- Tables are sequences of rows in the order they are fetched; several rows that are equally good are
  taken in that order. Unordered sets are gone through in any order.
- The SDK's pool selection returns a storage pool with enough room and the required ephemeral policy;
  filters keep pools with enough cores and memory; weights are arbitrary.
- An agent step and a builder hook are atomic, and a manifest carries no id of its own.
- Only the driver writes the DHCP files while one of its operations is under way; a torn context file
  does not parse.
- The remote DNS service answers about rows of one zone, and no other owner writes a row between the
  check of its mark and the write.
- A refresh gets rows with ids of their own, no flag, and not installed.

## Model

| member | source | states |
|---|---|---|
| `Ipam.OccupyIp` | exordos_core/network/ipam.py:109-138 | Removes exactly the address from the set the list stands for, leaves the list sorted, disjoint and non-adjacent, and changes nothing for an address that is not free. |
| `Ipam.ReleaseIp` | exordos_core/network/ipam.py:167-200 | Adds exactly the address; the list stays sorted, disjoint and non-adjacent if and only if the address is not an end of a free interval (such an address slips past the checks of the loop). |
| `Ipam.CanonicalUnique` | exordos_core/network/ipam.py:109-200 | A sorted, disjoint, non-adjacent list is determined by the addresses it covers. |
| `Ipam.SameAddressesSameList` | exordos_core/network/ipam.py:109-200 | Two well-formed lists with the same address set are the same list. |
| `Ipam.OccupyThenRelease` | exordos_core/network/ipam.py:109-200 | Occupying a free address and releasing it gives back the identical list. |
| `Ipam.CalculatePool` | exordos_core/network/ipam.py:81-107 | Fails exactly when the two configured ranges overlap; otherwise the pool is the range without every port address outside the discovery range. |
| `Ipam.PortsExcludedIff` | exordos_core/network/ipam.py:84-107 | The pool excludes every port address if and only if no port of the pool range lies in the discovery range; a configured address range, or no discovery range, always suffices. |
| `Ipam.Ipam.AddSubnet` | exordos_core/network/ipam.py:76-79 | Enters the pool of one subnet and leaves every other list object alone. |
| `Ipam.Ipam.AllocateIp` | exordos_core/network/ipam.py:140-165 | Hands out the target, else the least free address, and removes exactly it; fails on an unknown subnet and, without a target, on a dry pool. |
| `Ipam.Ipam.DeallocateIp` | exordos_core/network/ipam.py:167-200 | Frees exactly the address; the allocator stays well formed if and only if the address is not an end of a free interval. |
| `PortAllocation.AllocateVmPorts` | exordos_core/network/service.py:303-317 | The loop over virtual machine nodes on an allocator, failed saves and the freeing of a left-over address included, is the run on the ledger of free and handed-out addresses. |
| `PortAllocation.AllocateHwPorts` | exordos_core/network/service.py:320-329 | The same for the loop over hardware ports. |
| `PortAllocation.AllocationPartitions` | exordos_core/network/service.py:303-317 | A run that does not die splits the initial pool into the addresses handed out, pairwise distinct, and the free ones, if and only if every turn found the pool not dry and its target free or absent. |
| `PortAllocation.GoodRunIffEnoughAddresses` | exordos_core/network/service.py:303-317 | Without targets every turn is good if and only if the ports saved before the last request leave one address for it, and then the free set shrinks by the saved ports. |
| `PortAllocation.DryPoolHandsOutTwice` | exordos_core/network/service.py:315-316 | A concrete run on a dry pool: the second failure frees the first node's address and the third node gets it again. |
| `PortAllocation.HardwarePartitions` | exordos_core/network/service.py:320-329 | Whatever saves fail, the hardware loop splits the pool into free, handed-out and lost addresses, never two of these. |
| `PortAllocation.HardwareUsesUp` | exordos_core/network/service.py:320-329 | Every turn of the hardware loop uses up the least free address, whether its port could be saved or not, and only saved ports hand one out. |
| `PortAllocation.IterationPartitions` | exordos_core/network/service.py:303-329 | Both loops in a row, every turn of the first being good, split the initial pool into free, handed-out and lost addresses. |
| `PortAllocation.AllocatePorts` | exordos_core/network/service.py:291-329 | The pool of a subnet, then both loops: no address is handed out twice, all come from the initial pool, and none is that of an earlier port, if every turn is good and no port of the range sits in the discovery range. |
| `Placement.BestIffFeasible` | exordos_core/compute/scheduler/service.py:278-349 | There is a best idle volume exactly when some idle volume is feasible, so a new volume is built only when none is. |
| `Placement.ReuseMeans` | exordos_core/compute/scheduler/service.py:251-336 | Which idle volumes can be reused, which are on the tier and which are feasible, field by field: image, size, the one storage pool of the recorded name, its ephemeral policy, tier and free capacity. |
| `Placement.SelectStoreMeans` | exordos_core/compute/scheduler/service.py:196-201 | The SDK's selection is shown all storage pools whose name occurs once, in order and no others, and what it picks there is picked. |
| `Placement.BestIsUnique` | exordos_core/compute/scheduler/service.py:315-321 | The preference among candidates (exact tier, smaller resize, list order) picks at most one. |
| `Placement.ReuseIsBestFit` | exordos_core/compute/scheduler/service.py:278-349 | A reused volume is feasible, no feasible candidate of its tier group needs a smaller resize, another tier is used only if no exact one is feasible, and a new volume only if none is. |
| `Placement.PlaceConserves` | exordos_core/compute/scheduler/service.py:227-349 | One placement raises provisioned minus idle sizes of the storage pool it uses by the requested size, and of no other, whether the volume was reused or built. |
| `Placement.PlaceAllConserves` | exordos_core/compute/scheduler/service.py:351-367 | The same added up over all volumes of a node. |
| `Placement.PlaceAllKeepsRoom` | exordos_core/compute/scheduler/service.py:351-367 | With a selection that returns pools with enough room, no storage pool is ever overdrawn. |
| `Placement.OwnersAreDisjoint` | exordos_core/compute/scheduler/service.py:338-346 | Every idle volume stays idle or is reused, and never twice. |
| `Scheduler.FindStoragePoolByName` | exordos_core/compute/scheduler/service.py:210-225 | Finds the one storage pool of a name; none if it is missing or ambiguous. |
| `Scheduler.ExistingStoragePool` | exordos_core/compute/scheduler/service.py:251-261 | The storage pool an idle volume lives on, if known. |
| `Scheduler.SelectStoragePool` | exordos_core/compute/scheduler/service.py:183-208 | The chosen storage pool has a name that occurs once and, with a selection that keeps its promise, room and the ephemeral policy asked for; with no such name there is no choice. |
| `Scheduler.BuildMachineVolume` | exordos_core/compute/scheduler/service.py:227-249 | A new volume charges exactly the selected storage pool by its size; without a selection nothing changes. |
| `Scheduler.ReuseOrder` | exordos_core/compute/scheduler/service.py:278-321 | The sorted lists of candidates, exact tier first, contain exactly the candidates in the order of preference. |
| `Scheduler.FirstFitting` | exordos_core/compute/scheduler/service.py:321-346 | The first candidate whose growth fits is the best one. |
| `Scheduler.PlaceVolumeIntoPool` | exordos_core/compute/scheduler/service.py:263-349 | On objects: storage pools, idle list and owner change exactly as the pure placement says, no other owner changes, and a failure changes nothing; a reused disk has the requested image, at most the requested size and the ephemeral policy, a new one exactly what is requested. |
| `Scheduler.AllocateNodeVolumes` | exordos_core/compute/scheduler/service.py:351-367 | All or nothing: success places every volume on a disk of its own, an idle one of the pool that leaves the list or a new one; failure restores every provisioned capacity, the idle list with its order, and every owner. |
| `Scheduler.DeepCopy` | exordos_core/compute/scheduler/service.py:418-431 | The copy shares no object with the original and has the same values. |
| `Scheduler.MachineHasDiskCapacity` | exordos_core/compute/scheduler/service.py:418-431 | The dry run succeeds exactly when the real placement would, and changes no existing object. |
| `SchedulingRun.RunConserves` | exordos_core/compute/scheduler/service.py:558-600 | Over a whole run, per storage pool, provisioned minus idle and placed sizes never changes, and available capacity, cores and memory never become negative under the filter and selection contracts. |
| `SchedulingRun.NoTwoOwners` | exordos_core/compute/scheduler/service.py:558-600 | No idle volume is reused twice in a run. |
| `SchedulingRun.TryIsTurn` | exordos_core/compute/scheduler/service.py:588-600 | One node: the first pool of its order with room for all its volumes and a save that succeeds receives them at the end of its log and loses exactly the node's cores and memory; pools without room, and those behind it, are unchanged; one that could not be saved stays charged; with no such pool the node is placed nowhere. |
| `SchedulingRun.ScheduleIsHistory` | exordos_core/compute/scheduler/service.py:558-600 | A run is such a turn for every node, in order, on the pools as ranked after the turns before. |
| `SchedulingRun.CreditAddsUp` | exordos_core/compute/scheduler/service.py:411-416 | Over a run every pool loses exactly the cores and memory of the nodes it took. |
| `SchedulerService.PlaceNodeIntoPool` | exordos_core/compute/scheduler/service.py:369-416 | A node takes its cores and memory off the pool exactly when its volumes were placed and saving succeeded; a failed save leaves the volumes charged. |
| `SchedulerService.TryInOrder` | exordos_core/compute/scheduler/service.py:590-600 | The loop over ranked pools on objects is the pure trial in order. |
| `SchedulerService.ScheduleOnPools` | exordos_core/compute/scheduler/service.py:541-600 | On shared objects: ends in the state of the pure run, with a history that tells turn by turn which pool took each node and what became of every pool. |
| `Versions.KeyTotal` | exordos_core/repo/builders/element.py:149-162 | The version keys are totally ordered. |
| `Versions.KeyLessMeans` | exordos_core/repo/builders/element.py:149-162 | Smaller numbers are less whatever the suffix; with the same numbers a development version is less than the release; among development versions the smaller suffix is. |
| `Versions.StringLessIff` | exordos_core/repo/builders/element.py:149-162 | Suffixes compare by the first character in which they differ, a prefix before what goes on. |
| `Versions.BetterMeans` | exordos_core/repo/builders/element.py:165-229 | Preferred are, in this order, installed elements, the higher repository priority, releases, and the greater numbers. |
| `Versions.MatchesIsInterval` | exordos_core/repo/builders/element.py:174-213 | A readable version satisfies readable bounds exactly when it lies within all of them. |
| `Versions.BetterTotal` | exordos_core/repo/builders/element.py:165-229 | The preference between candidates is total and antisymmetric. |
| `Versions.BetterTransitive` | exordos_core/repo/builders/element.py:165-229 | The preference is transitive. |
| `Versions.BetterIsGreaterExceptSuffix` | exordos_core/repo/builders/element.py:165-167 | Among candidates alike in installation, priority and being a release the preferred one is the greater version, except between development versions of the same numbers. |
| `Versions.OlderCandidatePreferred` | exordos_core/repo/builders/element.py:165-227 | A concrete pair: of two development versions the older one is preferred, against the documented "higher version number". |
| `Dependencies.DependenciesOf` | exordos_core/repo/dm/models.py:469-513 | The loop over requirements yields the constraints in order: from is at least, to is less than, entries that are no dictionary and empty ones are dropped. |
| `Dependencies.DepsAre` | exordos_core/repo/dm/models.py:470-511 | The dependencies are the requirements that name a bound, in order, each with its name and exactly its bounds. |
| `Dependencies.AdmitsIff` | exordos_core/repo/builders/element.py:174-213 | Which versions a requirement admits, part by part: a named version only itself; otherwise from inclusive, to exclusive; when an unreadable bound is an error and when it is not looked at. |
| `Dependencies.SelectDependency` | exordos_core/repo/builders/element.py:340-390 | Filter, checks, sort and choice give the selection: a row of the name whose version lies within the bounds, a release where a release bounds it from below with the same numbers, and ahead of every other row that fits. |
| `Dependencies.SelectErrors` | exordos_core/repo/builders/element.py:345-385 | A conflict is an installed row that does not fit, not found means no installed and no fitting row, and an unreadable bound or version is an error in the order of the checks. |
| `Dependencies.SelectCanonical` | exordos_core/repo/builders/element.py:349-391 | Two selections of the same name and version are the same row, whatever constraints they were made for. |
| `Dependencies.InstalledDecides` | exordos_core/repo/builders/element.py:356-391 | An installed element blocks a constraint it does not satisfy and is selected for one it does. |
| `Dependencies.Collector.CollectDependencies` | exordos_core/repo/builders/element.py:318-400 | The recursive search with its set of visited keys, changed in place, is the pure search, cyclic graphs included; unvisited keys are its measure. |
| `DependencyClosure.CollectOnce` | exordos_core/repo/builders/element.py:329-338 | A search adds exactly the keys of what it returns, each once. |
| `DependencyClosure.CollectIsClosure` | exordos_core/repo/builders/element.py:318-400 | A successful search returns exactly the elements reachable through selected dependencies, without duplicates, and the requested element last. |
| `DependencyClosure.DependenciesComeFirst` | exordos_core/repo/builders/element.py:398-400 | Without a cycle every dependency comes before its dependent. |
| `DependencyClosure.FailsIffObstructed` | exordos_core/repo/builders/element.py:356-389 | The search fails exactly when some reachable element has a dependency for which nothing can be selected, and with the error of such a one. |
| `Lifecycle.NextValid` | exordos_core/repo/builders/element.py:402-662 | Every API, builder and agent step keeps rows, links, bindings and targets consistent. |
| `Lifecycle.NextNames` | exordos_core/repo/builders/element.py:402-662 | No step renames or removes a row. |
| `LifecycleSafety.InstallAllKeepsOne` | exordos_core/repo/builders/element.py:407-417 | Installing a whole dependency closure keeps at most one installed element per name. |
| `LifecycleSafety.UpgradeKeepsOneIff` | exordos_core/repo/dm/models.py:594-616 | An upgrade the code accepts keeps at most one installed element per name if and only if it starts from the installed element or no element of the name is installed. |
| `LifecycleSafety.StepKeepsOneIff` | exordos_core/repo/dm/models.py:515-617 | Over all steps: at most one is kept exactly if the step is not an upgrade of an uninstalled element whose name is installed elsewhere. |
| `LifecycleSafety.RunsKeepOne` | exordos_core/repo/dm/models.py:515-617 | At most one installed element per name in every reachable state, with upgrades guarded as their documentation says. |
| `LifecycleSafety.UpgradingTwiceInstallsTwo` | exordos_core/repo/dm/models.py:594-616 | Upgrading an element twice before its release is accepted and leaves two installed versions. |
| `LifecycleSafety.UninstallKeepsProvidedIff` | exordos_core/repo/dm/models.py:537-574 | An accepted removal keeps every binding provided for if and only if every binding to the removed name is its own. |
| `LifecycleSafety.StepKeepsProvidedIff` | exordos_core/repo/builders/element.py:294-443 | Over all steps, hand-over and installation included: every binding keeps an installed provider of its name, except exactly on such a removal. |
| `LifecycleSafety.RemovedBeforeHandOver` | exordos_core/repo/dm/models.py:545-548 | Between upgrade and hand-over the removal of the new version is accepted and leaves dependents without a provider. |
| `LifecycleSafety.RunsKeepProvided` | exordos_core/repo/builders/element.py:294-443 | Dependency safety over runs: installed providers for all bindings in every reachable state, under the two guards. |
| `LifecycleSafety.InstallBinds` | exordos_core/repo/builders/element.py:402-443 | After a successful installation everything that the requirements lead to is installed, has a binding, and cannot be uninstalled. |
| `LifecycleSafety.InstallBindsOnly` | exordos_core/repo/builders/element.py:419-437 | New bindings are from the element to other elements that its requirements lead to. |
| `LifecycleSafety.BoundStays` | exordos_core/repo/dm/models.py:537-574 | Over any run, until the dependent is removed or one of the two is released, what it is bound to cannot be uninstalled. |
| `LifecycleSafety.ReleaseRepoints` | exordos_core/repo/builders/element.py:294-316 | The release after an upgrade: what was bound to the old version is bound to the installed one, its own bindings are gone, every other one is kept, and nothing else is added. |
| `LifecycleSteps.InstallMeans` | exordos_core/repo/dm/models.py:515-535 | Install, field by field: accepted exactly for an uninstalled element of whose name none is installed; only that row changes. |
| `LifecycleSteps.UninstallMeans` | exordos_core/repo/dm/models.py:537-574 | Uninstall, field by field: accepted exactly for an installed element nothing is bound to; the row forgets its runtime element and exactly its own bindings go. |
| `LifecycleSteps.UpgradeMeans` | exordos_core/repo/dm/models.py:576-617 | Upgrade, field by field, with the check the code makes: the target is installed instead and takes over the runtime element, which the upgraded row still knows. |
| `LifecycleSteps.InstalledHookMeans` | exordos_core/repo/builders/element.py:496-524 | The hooks of an installed element install only what its requirements lead to, uninstall nothing, and leave links and the agent's side alone. |
| `LifecycleSteps.InstallAllStops` | exordos_core/repo/builders/element.py:408-417 | An installation stops at the first element another version of which is installed; what comes before it stays installed, what comes behind it is untouched. |
| `LifecycleSteps.UninstalledHookMeans` | exordos_core/repo/builders/element.py:496-510 | Creating an uninstalled element does nothing; updating one without a runtime element drops its target. |
| `LifecycleSteps.ReleaseMeans` | exordos_core/repo/builders/element.py:553-627 | When a release goes ahead, when it waits, and what an ordinary removal does, field by field. |
| `LifecycleSteps.ActualizeMeans` | exordos_core/repo/builders/element.py:636-660 | A row with a target takes over exactly what was reported for its manifest, and nothing else changes. |
| `LifecycleSteps.ApplyMeans` | exordos_core/repo/agents/universal/drivers/repo_element.py:136-260 | Realising a target: the manifest exists and carries the runtime element of the name, which keeps its id, and this is reported; nothing else changes. |
| `LifecycleSteps.RemoveMeans` | exordos_core/repo/agents/universal/drivers/repo_element.py:136-260 | Removing a manifest without a target takes the runtime element with it exactly if the manifest carries it. |
| `LifecycleSteps.ReportMeans` | exordos_core/repo/agents/universal/drivers/repo_element.py:136-260 | A report tells for each existing manifest the runtime element it carries, if any. |
| `NoGap.ConsistencyKept` | exordos_core/repo/agents/universal/drivers/repo_element.py:136-260 | The agent's runtime elements always hang on a manifest it has. |
| `NoGap.StepSafeIff` | exordos_core/repo/builders/element.py:547-634 | Any step but the accepted removal of the name keeps its runtime element secured if and only if nothing is realised for a row that neither is installed nor waits, and no waiting row is let go while its manifest carries the element. |
| `NoGap.WatchedIsOrderly` | exordos_core/repo/builders/element.py:553-581 | From a state in step the builder's own release check suffices: every builder hook is orderly, with no condition on it. |
| `NoGap.StepInStepIff` | exordos_core/repo/builders/element.py:547-634 | Any step of the API, the builder or the agent keeps a name in step if and only if it is watched: the name is not removed, an upgrade starts from the installed row and goes to one without a stale report, and no waiting row is realised again after the installed one is in place. |
| `NoGap.RunsKeepRuntime` | exordos_core/repo/builders/element.py:547-634 | No gap: over any run of watched steps, chains of upgrades included and every builder hook free, a name keeps a runtime element and an installed row until it is uninstalled. |
| `NoGap.CheckedRunsKeepRuntime` | exordos_core/repo/builders/element.py:547-634 | The same under conditions on upgrades and on the agent that the tables and reports alone decide before each step. |
| `NoGap.FirstRealised` | exordos_core/repo/builders/element.py:402-443 | The first realised manifest of a name brings it in step. |
| `NoGap.StaleTargetGaps` | exordos_core/repo/dm/models.py:576-617 | The condition on upgrades is needed: from any state in step, an upgrade to a version still reported with a runtime element it does not carry, one builder hook and one agent step leave the installed name without its runtime element. |
| `NoGap.LateRealisationGaps` | exordos_core/repo/builders/element.py:566-634 | So is the condition on the agent: a waiting row realised again after the installed one is in place is released with the runtime element. |
| `NoGap.UnsafeCanGap` | exordos_core/repo/builders/element.py:553-634 | From a state that is not secured the builder and the agent alone can take the runtime element away. |
| `NoGap.StaleReportGaps` | exordos_core/repo/builders/element.py:566-634 | A run of eleven states in which an upgrade is moved back at once and a stale report lets the agent delete the runtime element of an installed name. |
| `RepoStore.ElementStore.Install` | exordos_core/repo/dm/models.py:515-535 | The call on the tables is the step: it is rejected exactly if the element or another of its name is installed. |
| `RepoStore.ElementStore.Uninstall` | exordos_core/repo/dm/models.py:537-574 | Rejected exactly if not installed or depended on; deletes the own bindings one by one. |
| `RepoStore.ElementStore.Upgrade` | exordos_core/repo/dm/models.py:576-617 | Accepts exactly an element with a runtime element and an uninstalled target of its name. |
| `RepoStore.ElementStore.InstallManifest` | exordos_core/repo/builders/element.py:402-443 | Installs the closure in order, records missing bindings, and adds the target; a failing closure or installation stops where it is. |
| `RepoStore.ElementStore.HandOverDepsBindings` | exordos_core/repo/builders/element.py:294-316 | Drops the own bindings and repoints the others; nothing changes if a moved binding exists already, which the unique index forbids. |
| `RepoStore.ElementStore.UpdateDerivatives` | exordos_core/repo/builders/element.py:527-634 | The builder's update of one element is the step of the state machine. |
| `LatestFlag.TakeOutDrops` | exordos_core/repo/builders/repository.py:229-247 | Retired or deleted, a stale element costs its product exactly that stable row. |
| `LatestFlag.PromoteFlagsOne` | exordos_core/repo/builders/repository.py:249-266 | Promotion flags the greatest remaining stable row of its product and touches no other product. |
| `LatestFlag.OneTurn` | exordos_core/repo/builders/repository.py:170-187 | What a loop over stale copies does to one product: drop rows up to the flagged copy, flag the greatest left, drop the rest. |
| `LatestFlag.AnnounceKeepsCorrect` | exordos_core/repo/builders/repository.py:203-227 | Announcing a saved version keeps the index of every product. |
| `LatestFlag.AddAllKeepsCorrect` | exordos_core/repo/builders/repository.py:132-145 | So does announcing any number of versions in any order. |
| `LatestFlag.TakingOutKeepsCorrectIff` | exordos_core/repo/builders/repository.py:156-187 | After a refresh over copies fetched once at most one stable row is flagged and it is the greatest; some row is flagged exactly when no promotion picked a stale row or no stable row is left. |
| `LatestFlag.OneStaleVersionIsSafe` | exordos_core/repo/builders/repository.py:156-187 | One stale stable version per product and refresh is always safe. |
| `LatestFlag.TwoStaleVersionsLoseTheFlag` | exordos_core/repo/builders/repository.py:160-187 | With two, taking the flagged one first leaves a stable row and no flagged one. |
| `LatestRefresh.Catalogue.SetLatestForNew` | exordos_core/repo/builders/repository.py:203-227 | The row writes of the announcement leave exactly the new row flagged in its product if it is the greatest. |
| `LatestRefresh.Catalogue.ClearOthers` | exordos_core/repo/builders/repository.py:218-221 | The loop over the product's rows unflags exactly the others. |
| `LatestRefresh.Catalogue.SetLatestForOutdated` | exordos_core/repo/builders/repository.py:249-266 | Writes the flag of the greatest remaining stable row. |
| `LatestRefresh.Catalogue.Retire` | exordos_core/repo/builders/repository.py:229-247 | Clears both flags of an installed element that is no longer offered, keeps its row, and promotes if it was the flagged one. |
| `LatestRefresh.Catalogue.AddNew` | exordos_core/repo/builders/repository.py:132-145 | Adds one row per offered key that is not listed, in any order. |
| `LatestRefresh.Catalogue.Refresh` | exordos_core/repo/builders/repository.py:116-187 | The whole refresh: arrivals are exactly the unlisted offers, the copies are exactly the rows no longer offered, and the table is the result of adding all and processing all. |
| `LatestRefresh.RefreshIsRefreshed` | exordos_core/repo/builders/repository.py:116-205 | A refresh row by row: rows still offered or of other repositories stay but for latest; an installed row no longer offered stays with both flags cleared; any other is gone; what is newly offered is there; and nothing else. |
| `LatestRefresh.RefreshKeepsIndexIff` | exordos_core/repo/builders/repository.py:116-266 | From a correct table: soundness for every product, correctness exactly under the condition above, and always for other repositories. |
| `LatestRefresh.ServesOnlyOffered` | exordos_core/repo/builders/repository.py:229-247 | Every stable row left in the repository is offered by its source. |
| `LatestRefresh.BackfillVersionFlags` | migrations/0002-add-repo-element-version-flags-24310b.py:64-101 | The one pass marks exactly the releases stable and leaves a correct index for every repository and name. |
| `LatestRefresh.ScanVersions` | migrations/0002-add-repo-element-version-flags-24310b.py:77-91 | The pass finds the ids of all releases and a first greatest one per product. |
| `LatestRefresh.CorrectIsUnique` | migrations/0002-add-repo-element-version-flags-24310b.py:64-101 | Without equal versions the correct index is unique, so the migration and the refreshes agree. |
| `FlatDriver.DHCPContext.AddSubnet` | exordos_core/network/driver/flat.py:126-131 | Appends a subnet with no ports; refuses an id that is there. |
| `FlatDriver.DHCPContext.DeleteSubnet` | exordos_core/network/driver/flat.py:133-138 | Removes the subnet with the id and its ports. |
| `FlatDriver.DHCPContext.AddPort` | exordos_core/network/driver/flat.py:140-144 | Appends a port; refuses an id that is there. |
| `FlatDriver.DHCPContext.DeletePort` | exordos_core/network/driver/flat.py:146-150 | Removes the port with the id. |
| `FlatDriver.FlatBridgeNetworkDriver.LoadCtx` | exordos_core/network/driver/flat.py:173-187 | A missing, torn or mismatching context loads as empty, any other as stored; a missing one is created empty. |
| `FlatDriver.FlatBridgeNetworkDriver.ApplyCfg` | exordos_core/network/driver/flat.py:202-207 | Leaves the configuration rendered from the context and the context stored with its hash. |
| `FlatDriver.SubnetMapLists` | exordos_core/network/driver/flat.py:202-207 | What is rendered lists each subnet of the context, in order, with exactly its ports, and nothing else. |
| `FlatDriver.FlatBridgeNetworkDriver.CreateSubnet` | exordos_core/network/driver/flat.py:219-236 | Adds an entry with no ports, or refuses and changes nothing. |
| `FlatDriver.FlatBridgeNetworkDriver.DeleteSubnet` | exordos_core/network/driver/flat.py:293-315 | Removes exactly the entry. |
| `FlatDriver.FlatBridgeNetworkDriver.UpdateSubnet` | exordos_core/network/driver/flat.py:382-398 | Replaces the entry; its ports are gone. |
| `FlatDriver.FlatBridgeNetworkDriver.CreatePorts` | exordos_core/network/driver/flat.py:263-291 | Adds all ports in order and active, or none of them if one is there already. |
| `FlatDriver.FlatBridgeNetworkDriver.DeletePorts` | exordos_core/network/driver/flat.py:341-357 | Removes exactly the ports with these ids. |
| `FlatDriver.FlatBridgeNetworkDriver.UpdatePort` | exordos_core/network/driver/flat.py:359-380 | Replaces the port, or adds it. |
| `FlatDriver.ViewAddSubnet` | exordos_core/network/driver/flat.py:126-131 | By subnet id, adding changes one entry. |
| `FlatDriver.ViewDeleteSubnet` | exordos_core/network/driver/flat.py:133-138 | By subnet id, deleting removes one entry. |
| `FlatDriver.ViewAddPorts` | exordos_core/network/driver/flat.py:263-291 | Ports new to their subnet are all accepted and appended to one entry. |
| `FlatDriver.DropPortsLeaves` | exordos_core/network/driver/flat.py:341-349 | Deleting a list of ports leaves exactly those whose ids are not in it. |
| `NetworkService.CreateMissing` | exordos_core/network/service.py:169-180 | Adds exactly the wanted ports the driver did not list. |
| `NetworkService.DropExtra` | exordos_core/network/service.py:199-206 | Removes exactly the listed ports that are not wanted. |
| `NetworkService.UpdateCommon` | exordos_core/network/service.py:212-227 | Rewrites exactly the common ports whose address differs. |
| `NetworkService.ActualizeSubnet` | exordos_core/network/service.py:148-245 | After the pass the subnet has the target settings and every port its target's address; its port ids are the wanted ones, less those that were in place if the settings had to change. |
| `NetworkService.ActualizeNetwork` | exordos_core/network/service.py:107-146 | A pass, in any order of ids, makes the driver's subnets exactly the target's, new ones without ports, common ones as above. |
| `NetworkService.OnePassIff` | exordos_core/network/service.py:107-245 | One pass reaches the target if and only if no new subnet wants ports and no subnet with changed settings has ports in place. |
| `NetworkService.ConvergesInTwoPasses` | exordos_core/network/service.py:107-245 | From any state of the driver every second and later pass ends with the target's subnets, settings and port ids. |
| `DhcpCrash.NextKeepsInv` | exordos_core/network/driver/flat.py:176-207 | Every step between the writes, torn files, aborts, crashes and foreign edits included, keeps the stored hash the hash of the stored context's rendering. |
| `DhcpCrash.CrashConsistentIff` | exordos_core/network/driver/flat.py:176-207 | In every reachable state a context that loads as non-empty renders to the current configuration file, if and only if no other text shares a hash with a rendering. |
| `DhcpCrash.CollisionShows` | exordos_core/network/driver/flat.py:184-191 | A colliding text reaches a state with a stale context. |
| `DhcpCrash.ApplyIsRun` | exordos_core/network/driver/flat.py:202-207 | From any reachable state between operations, the steps of one operation without a crash prolong the run to a state with both files written. |
| `DhcpCrash.DriverIsState` | exordos_core/network/driver/flat.py:176-207 | Between operations the driver's files are a state of the crash model: it loads the same context, and has applied one exactly when the state is the one an operation ends in. |
| `DhcpCrash.RestartForgets` | exordos_core/network/driver/flat.py:189-191 | After a restart of the process a context survives exactly if the new seed gives the file the same hash. |
| `DnsMirror.DataIsOurs` | exordos_core/dns_sync/service.py:304-324 | What is sent upstream carries this realm's mark and no other. |
| `DnsMirror.DataMirrors` | exordos_core/dns_sync/service.py:304-324 | What is sent has the record's type, time to live, state and data, its own tags each as often as the record has them and the one mark; without a mark, no tags. |
| `DnsMirror.OursMeans` | exordos_core/dns_sync/service.py:303-324 | A row is of this realm exactly if it carries its mark and every mark among its tags is that one. |
| `DnsMirror.RemoteZone.Post` | exordos_core/dns_sync/service.py:219-226 | The remote contract: a row is added, a conflict is reported, or the call fails before or after its effect. |
| `DnsMirror.DNSSyncService.FilterRefused` | exordos_core/dns_sync/service.py:147-155 | A refusal of the filter stands for its time and is then forgotten together with the verdict on tags. |
| `DnsMirror.DNSSyncService.ObserveTags` | exordos_core/dns_sync/service.py:204-210 | A zone that is not empty decides whether the service holds tags. |
| `DnsMirror.DNSSyncService.ListRecords` | exordos_core/dns_sync/service.py:157-202 | Filtered or whole, a successful read shows rows of the zone only and every row of this realm. |
| `DnsMirror.DNSSyncService.UpdateRecord` | exordos_core/dns_sync/service.py:234-252 | Overwrites a row only if it carries exactly the one mark that is sent. |
| `DnsMirror.DNSSyncService.CreateRecord` | exordos_core/dns_sync/service.py:212-252 | Adds a row, or on a conflict overwrites the existing one exactly if it is of this realm, with the record's content, field by field; any other row is left without a write. |
| `DnsMirror.DNSSyncService.FullSyncDomain` | exordos_core/dns_sync/service.py:415-526 | A pass leaves every id as it was or as it should be, whatever calls fail; without a failure all are as they should be, and every local record that no foreign row blocks is there with its content; nothing is written when nothing is to be done. |
| `DnsMirror.ForeignRowsStay` | exordos_core/dns_sync/service.py:471-508 | Rows whose realm marks are not exactly this realm's are unchanged under any failures. |
| `DnsMirror.MirrorsLocals` | exordos_core/dns_sync/service.py:415-526 | Without a failure this realm's rows, save SOA, are exactly the local records that no foreign row blocks, with their type, time to live, state, data and tags. |
| `DnsMirror.MirrorsUntagged` | exordos_core/dns_sync/service.py:415-526 | A zone without any tags, read whole, keeps its rows and gets the missing records without tags. |
| `DnsMirror.SoaStays` | exordos_core/dns_sync/service.py:428-440 | SOA rows without a local record are never touched. |
| `DnsMirror.SettledStays` | exordos_core/dns_sync/service.py:471-526 | Settling a row twice is settling it once. |
| `DnsMirror.SyncedIsQuiet` | exordos_core/dns_sync/service.py:157-210 | After a pass without a failure another one has nothing to do, whatever marks the two work with, that is, however each of them read the zone. |
| `DnsMirror.DNSSyncService.SyncAgain` | exordos_core/dns_sync/service.py:415-526 | Two passes in a row: if nothing failed in the first, the second writes nothing and the zone is the one the first left. |
| `DnsMirror.SyncedIsUniqueIff` | exordos_core/dns_sync/service.py:157-210 | Two ways to read one zone lead to the same zone if and only if they settle on the same mark or there is nothing to add; always so in a zone in which some row has tags. |
| `DnsMirror.FailedPassesAddUp` | exordos_core/dns_sync/service.py:415-526 | Any number of partly failed passes, each with its own mark, leave every row as it was or settled once. |
| `DnsMirror.RecoversFromFailures` | exordos_core/dns_sync/service.py:415-526 | One pass without a failure makes up for all failed ones before it: every row ends settled, and one there from the start exactly as the last mark asks. |
| `DnsDomains.LabelsBelow` | exordos_core/dns_sync/service.py:627-633 | Leaving out leading labels gives a suffix behind a dot. |
| `DnsDomains.BelowLabels` | exordos_core/dns_sync/service.py:627-633 | Every suffix behind a dot leaves out some labels. |
| `DnsDomains.ReducedCovers` | exordos_core/dns_sync/service.py:624-635 | A domain is equal to or below a kept name if and only if it is equal to or below an original non-empty one. |
| `DnsDomains.ReducedIsMinimal` | exordos_core/dns_sync/service.py:624-635 | No kept name is below another. |
| `DnsDomains.NoneIsSpare` | exordos_core/dns_sync/service.py:624-635 | Without any one kept name, that name would not be covered. |
| `DnsDomains.WrittenCovers` | exordos_core/dns_sync/service.py:624-635 | For any stored names, stripped, without trailing dots and in lower case, the written list matches a domain exactly when some stored name does, the empty ones aside. |
| `IniText.LinesAreLines` | exordos_core/cmd/bootstrap.py:569-569 | Splitting a text into lines loses nothing. |
| `IniText.LinesOfConcat` | exordos_core/cmd/bootstrap.py:609-609 | Joined lines split into the same lines. |
| `IniText.SettingReadsBack` | exordos_core/cmd/bootstrap.py:595-604 | A written setting reads back as its key and value. |
| `IniText.StripMeans` | exordos_core/cmd/bootstrap.py:593-601 | Stripping cuts white space off both ends, and all of it. |
| `IniSection.NewBodyHolds` | exordos_core/cmd/bootstrap.py:592-608 | The new body of a section holds every item, and its other settings are the old ones in order. |
| `IniSection.NewBodyKeeps` | exordos_core/cmd/bootstrap.py:566-608 | Every line of the body that sets no listed key, comments among them, stays word for word and in order. |
| `IniEnsure.LinesStay` | exordos_core/cmd/bootstrap.py:581-609 | Every line outside an existing section stays, and inside it every line that sets no listed key. |
| `IniEnsure.PresentHolds` | exordos_core/cmd/bootstrap.py:581-609 | An existing section holds the items afterwards and keeps its other settings; every other section has the very lines it had. |
| `IniEnsure.HoldingStays` | exordos_core/cmd/bootstrap.py:562-609 | A text that holds the items already is returned unchanged. |
| `IniSections.AbsentHolds` | exordos_core/cmd/bootstrap.py:574-579 | A missing section is appended with the items, and no other section changes what it says. |
| `IniSections.EnsuredHoldsIff` | exordos_core/cmd/bootstrap.py:562-609 | The section holds the items afterwards if and only if its header line ends with a line break, or there is no line to write behind it. |
| `IniSections.BrokenHeader` | exordos_core/cmd/bootstrap.py:571-609 | Behind an unterminated header the first new line runs into it and the section is lost. |
| `IniSections.OthersStay` | exordos_core/cmd/bootstrap.py:562-609 | Other sections say afterwards what they said before. |
| `IniSections.EnsuredTwiceIff` | exordos_core/cmd/bootstrap.py:562-609 | Ensuring a section twice is ensuring it once, if and only if its header line ends or nothing is to be written behind it. |
| `IniSections.AllHoldIff` | exordos_core/cmd/bootstrap.py:626-628 | On any text the fold establishes all its sections at once, if and only if every section's header line ends, has nothing to be written behind it, or an earlier section is missing and gets appended. |
| `IniSections.EnsuredAllSays` | exordos_core/cmd/bootstrap.py:626-628 | Under that condition the fold leaves what every section it does not list says, and its lines ended. |
| `IniSections.InTurnIff` | exordos_core/cmd/bootstrap.py:626-628 | The condition on the text before the fold is the condition each section meets when it has its turn. |
| `IniSections.EnsuredAllTwiceIff` | exordos_core/cmd/bootstrap.py:626-630 | A second start finds the configuration up to date, if and only if the same condition holds of the text before the first. |
| `IniSections.AbsentKeeps` | exordos_core/cmd/bootstrap.py:574-579 | With a missing section the lines of the text come first, up to line breaks and to blank lines at the end, then the header and the new settings, and nothing else. |
| `IniSections.AppendedText` | exordos_core/cmd/bootstrap.py:574-579 | The text with an appended section, to the letter. |
| `IniSections.FoldKeepsLines` | exordos_core/cmd/bootstrap.py:626-628 | Over the whole fold every line that is not blank and sets none of the listed keys stays word for word and in order, comments and lines before the first section among them; behind them come only the headers of the sections that were missing. |
| `IniSections.EditBody` | exordos_core/cmd/bootstrap.py:592-603 | The loop over body lines is the edit, and collects exactly the listed keys it saw. |
| `IniSections.EnsureSection` | exordos_core/cmd/bootstrap.py:562-609 | The editor, with its scans and its built-up body, computes the specified text. |
| `IniSections.EnsureSections` | exordos_core/cmd/bootstrap.py:626-628 | The fold over the sections. |
| `SchemaClosure.RefsIff` | exordos_core/elements/dm/utils.py:248-258 | A name is yielded exactly if a reference to it stands somewhere in the node. |
| `SchemaClosure.CopySchemaClosure` | exordos_core/elements/dm/utils.py:261-277 | Ends on cyclic references; adds exactly the names reachable through names not held, as the source has them; nothing a copied schema refers to and the source defines is missing. |
| `SchemaClosure.BuildFullSchema` | exordos_core/elements/dm/utils.py:303-343 | After all models: the base's names and what any model needs, models as the source has them. |
| `SchemaClosure.CompleteIff` | exordos_core/elements/dm/utils.py:334-339 | Nothing put in place refers to a missing definition if and only if every model the base defines too finds what it refers to in the base or through another model. |
| `SchemaClosure.FreshBaseIsComplete` | exordos_core/elements/dm/utils.py:303-343 | A base that defines none of the models is always completed. |
| `SchemaClosure.OverwritingDangles` | exordos_core/elements/dm/utils.py:334-339 | A base with its own schema by a model's name is left with a dangling reference. |
| `SchemaClosure.CycleGoesOn` | exordos_core/elements/dm/utils.py:287-297 | A name met again is met for ever. |
| `SchemaClosure.EndsOnce` | exordos_core/elements/dm/utils.py:280-297 | The end of an alias chain is unique and excludes a missing name and a cycle. |
| `SchemaClosure.ResolveSchema` | exordos_core/elements/dm/utils.py:280-297 | Returns the end of the alias chain, and nothing exactly on a missing name or an endless chain. |

## Left out

- Database, HTTP, file and service calls, sessions, logging, configuration parsing and the service loops; they appear as values, as outcomes that may fail, or not at all.
- Scheduler filters and weighters, the search for machines of existing nodes and the scheduling of single volumes (the same placement step is used there).
- The regular expression of versions, the operators a constraint does not support, and the download of an element's manifest on first use.
- Element and manifest statuses, the editing of a manifest, profiles and projects of elements, and the agent's in-memory engine.
- Rows that a refresh deletes while the lifecycle runs, and rows added meanwhile: the table of the state machine has fixed rows.
- `upload`, which sets no flag, and the retry and deadline handling around a refresh.
- Ties between equal versions beyond table order, and the columns of a row other than the ones named.
- `Ipam.__init__`, the plain loop over `add_subnet`, and ports with an address that does not parse.
- Ports of a failed save that stay in the subnet map until the next iteration.
- The status and address fields that `_actualize_subnet` stores back on ports and nodes, and a driver call that fails within a pass.
- `create_port` and `delete_port`, the one-port forms of the operations modelled; the text of the DHCP configuration itself.
- The fast DNS synchronisation, domain creation, and an older remote service that drops the tags of a record sent to an empty zone.
- White space beyond blank, tab, line feed and carriage return, and letters beyond ASCII in lower-casing.
- The sorted order and the atomic replacement of the public domain file.
- The `path` annotation that the schema build writes into a model, schemas that are not objects, and further specifications read from files or addresses.
- `DhcpCrash.CrashConsistentIff`: says nothing about a configuration changed by somebody else between an operation's write and its hash.
- `NoGap.RunsKeepRuntime`: an upgrade accepted for a row that is not installed is outside, as its documentation has it.
- `RepoStore.ElementStore.InstallManifest`: keeps what was installed before a rejected installation, which the model's own check raises after those rows were saved; a violated index is an error of the database, which undoes the whole hook. Whether a service rolls back the former too is not part of this repository; a hook that is undone leaves the state, as a step that is not taken.
- `LatestRefresh.Catalogue.Refresh`: does not model the sharing of fetched rows, because the code fetches copies.
- `IniText.LinesAreLines`: splits at line feeds only, where the editor's text could also break at rarer line boundaries.
- `IniText.LinesOfConcat`: the same.
