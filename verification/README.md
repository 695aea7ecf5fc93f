# Verified model of the Windows Machine Config Operator

The Windows Machine Config Operator (WMCO) turns Windows instances into worker nodes of a Kubernetes cluster. A daemon
on every node, WICD, drives the Windows service manager to match a ConfigMap that lists services with their
dependencies; the operator tells the daemon, through labels and annotations on the node, which ConfigMap to follow. This
project models that machinery in Dafny and proves what it guarantees in every run. `dafny verify dfyconfig.toml` checks
all of it.

## Reading guide

**The service engine.** `Graph` is the theory of dependency graphs: walks, acyclicity, and what replacing one service's
dependencies does to them. `ServiceState` is the value of a service manager at one instant, with two declarative
effects: `Halt`, what stopping a set of services does to everything that depends on them, and `Boot`, what starting them
does to everything they need. `ServiceManager` holds the service and manager objects, whose recursive, mutating methods
are proved to compute exactly these effects. The manager's ghost `history` records its value after every single change,
so that contracts speak about all intermediate states. *Safe* means that the dependency graph has no cycle and that every
dependency of a running service exists and is running. On top of this:

- `Reconcile` and `ServiceController` prove that reconciling a list ends in a state given in closed form (`After`), in
  which all listed services run as configured at the same time; that every state on the way is safe although old and new
  configurations are mixed; and that a second pass changes nothing. The state of the other services is part of the claim.
- `Cleanup` and `Teardown` do the same for removal, in any order, and relate removal to installation.
- `CycleCheck` and `CycleVerdict` treat the cycle check of the ConfigMap twice: as its comments describe it (proved
  right) and as it is written (see below). `ServicesCM` and `ServicesData` hold the methods that run it, and the rest of
  the validation, ordering, exchange and comparison of the ConfigMap, up to the fact that a valid sorted list meets the
  conditions of reconciliation.

**The protocols.** `Upgrade` is an event machine for any number of operator controllers and node daemons whose API calls
may fail with or without effect; its theorems are about every run. `Condition` is the busy-set protocol around the
Upgradeable condition. `MachineRollout` is the replacement of Machines after a key change. `MetadataPatch` is the patch
by which labels and annotations are set and removed. All of them assume that reads see earlier writes.

**Text and merging.** `Registries`, with `Sorting` and `ImagePath`, proves that the merge of image mirror sets through
unordered maps yields one sequence, and `MirrorOrder` exactly when it does not depend on the order of the entries. `UsernameFraming` is the text framing around an encrypted username.

## Where the code differs from its comments

- `hasCycle` returns the result of the first unexplored dependency directly (pkg/servicescm/servicescm.go:387), so later
  dependencies of that service are not looked at and the service is never marked as fully processed. It therefore refuses
  some lists without a cycle (`CycleVerdict.RefusesAcyclic`) and accepts some with one (`CycleVerdict.AcceptsCyclic`). For
  services without a cycle it is right in every order of the list exactly when no dependency of a service has managed
  dependencies itself (`CycleVerdict.AcyclicAlwaysRight`); it is right for every list that puts dependencies first. A cycle
  of first managed dependencies is always found (`CycleVerdict.FirstsCycleRefused`), and so is one behind a service that is
  the first managed dependency of two (`CycleVerdict.SharedFirstRefused`). Unless two services share a first managed
  dependency that leads to no cycle, nothing else is found in every order (`CycleVerdict.FirstsVerdict`).
- `NewData` can therefore build data that `Parse` refuses, because validation sorts the list before it is sent
  (`ServicesData.RoundTripFails`); with dependencies at strictly lower priorities this cannot
  happen. `ServicesData.ReadableWhenAccepted` says exactly when it does, and for services of one priority without a cycle
  every tie-break is readable exactly when no dependency has managed dependencies itself (`ServicesData.TiesReadable`).
- `validatePriorities` converts the priority to a signed number and starts from -1, so a list without bootstrap services
  is refused when a priority is 2^64 - 1 (`ServicesCM.ValidatePriorities`).
- `isWindowsMachineHealthy` tests the phase and the node reference with "and" where its comment lists alternatives. A
  machine that is not Running but has a versioned node counts as healthy, and a Running one without a node reference makes the check
  follow a null reference. In all other cases code and comment agree (`MachineRollout.HealthAsDocumented`).
- The comment on merging says that NeverContactSource is preferred, but an entry without a policy, once met, keeps the
  policy unset (pkg/registries/registries.go:152). Never is preferred in every order exactly when a source does not have
  both (`Registries.NeverPreferred`). Since all digest entries are met before all tag entries, the configuration merged
  from the cluster's resources depends on the order of their entries exactly when a source has both among its digest
  entries, or has only Allow there and both among its tag entries (`MirrorOrder.ResourceOrderExactly`).
- Escaping a label or annotation key replaces "/" but not "~", which RFC 6901 requires as well; a generated path
  addresses its key exactly when the key has no "~" and is not a dot element (`MetadataPatch.PathTargets`).
- A busy controller does not imply that Upgradeable is not True. One call of `MarkAsBusy` leaves it True exactly when it
  was True and either reading the resource failed or the patch was refused (`Condition.BusyStaysUpgradeable`); in whole
  runs this lasts exactly as long as every call since the busy set was last empty is lost in that way
  (`Condition.ExposedExactly`). The calls concerned return an error, and the controllers do not go on.
- `Reconcile` never looks at the reboot annotation. Its own watches of the node and of the timer are filtered by it, but the
  watch of ConfigMaps is not (pkg/daemon/controller/controller.go:217-234). After a pass that changed certificates only, and
  asked for a reboot, another one finds nothing left to change and writes the version with the reboot still outstanding
  (`Upgrade.RebootIgnored`). The cleanup command asks for reboots as well (pkg/daemon/cleanup/cleanup.go:78-83), and
  Configure, which begins with it (pkg/windows/windows.go:532-538), does not wait for them, so that one attempt without any
  failure can end in the same way (`Upgrade.RebootLeftByCleanup`). `Upgrade.WriteDespiteReboot` says exactly when it happens.
- Removing a Node object while its instance is being upgraded takes the upgrading label with it. If the node registers again,
  the rest of the upgrade works on a node without the label, in this case only (`Upgrade.UpgradesCapped`).

## Model

| member | source | states |
|---|---|---|
| Graph.ReplaceKeepsAcyclic | pkg/daemon/fake/winsvc.go:95-98 | giving one service new dependencies keeps the graph acyclic if and only if none of them leads back to it |
| Graph.AncestorsShrink | pkg/daemon/manager/manager.go:126-136 | each recursive stop of a dependent has strictly fewer dependents left: why the cascade terminates |
| Graph.DescendantsShrink | pkg/daemon/fake/winsvc.go:28-44 | each recursive start of a dependency has strictly fewer dependencies left: why starting terminates |
| ServiceState.HaltedByClosed | pkg/daemon/manager/manager.go:115-139 | in a dependency-closed state, stopping services stops exactly the running services that reach one of them through dependencies |
| ServiceState.BootedByClosed | pkg/daemon/fake/winsvc.go:27-45 | in a dependency-closed state, starting services starts exactly their transitive dependencies that were not running |
| ServiceState.HaltCompose | pkg/daemon/manager/manager.go:126-136 | stopping services one after the other, in any order, has the effect of stopping them all at once |
| ServiceState.HaltFinish | pkg/daemon/manager/manager.go:126-139 | stopping a service after its direct dependents' cascades is its own whole cascade |
| ServiceState.BootCompose | pkg/daemon/fake/winsvc.go:28-44 | starting services one after the other is starting them all at once, and succeeds for the same states |
| ServiceState.BootFinish | pkg/daemon/fake/winsvc.go:27-46 | starting a service after its direct dependencies is its own whole boot, possible under the same condition |
| ServiceState.StopKeepsClosed | pkg/daemon/fake/winsvc.go:72-86 | stopping a service that no running service depends on keeps the state dependency-closed |
| ServiceState.StartKeepsClosed | pkg/daemon/fake/winsvc.go:28-45 | starting a service whose dependencies all run keeps the state dependency-closed |
| ServiceState.RemoveCompose | pkg/daemon/cleanup/cleanup.go:195-202 | removing services one after the other, in any order, is removing them all at once |
| ServiceState.RemoveLeaves | pkg/daemon/cleanup/cleanup.go:188-240 | after a removal exactly the other names are left, with their configurations, and still run unless they transitively depended on a removed service |
| ServiceState.DeleteKeepsSafe | pkg/daemon/manager/manager.go:91-98 | deleting a stopped service keeps the manager acyclic and dependency-closed |
| ServiceManager.FakeService.constructor | pkg/daemon/fake/winsvc.go:123-129 | a service object with the given name, configuration and status |
| ServiceManager.FakeService.SetStatus | pkg/daemon/fake/winsvc.go:45-45 | changes the status of this one service and nothing else |
| ServiceManager.FakeService.Start | pkg/daemon/fake/winsvc.go:23-47 | terminates when the stopped services form no cycle; succeeds if and only if the service was stopped and everything it needs exists; then exactly the service and its stopped transitive dependencies are started; on failure only some of those; a closed state stays closed after every single step |
| ServiceManager.FakeService.Control | pkg/daemon/fake/winsvc.go:53-89 | stops the service if and only if it runs and no running service depends on it; otherwise changes nothing |
| ServiceManager.FakeService.UpdateConfig | pkg/daemon/fake/winsvc.go:95-98 | replaces the configuration of this one service and keeps its status |
| ServiceManager.FakeService.ListDependentServices | pkg/daemon/fake/winsvc.go:100-121 | lists exactly the other services that have this one as a direct dependency |
| ServiceManager.Manager.constructor | pkg/daemon/fake/manager.go:59-64 | an empty service list |
| ServiceManager.Manager.ListServiceNames | pkg/daemon/fake/manager.go:36-45 | the names of all services, each once, in whatever order the map is traversed |
| ServiceManager.Manager.GetServices | pkg/daemon/fake/manager.go:99-106 | the set of all service names |
| ServiceManager.Manager.OpenService | pkg/daemon/fake/manager.go:108-114 | the service object of that name, or an error when there is none |
| ServiceManager.Manager.CreateService | pkg/daemon/fake/manager.go:81-97 | refused without effect when the name is taken; otherwise adds exactly one stopped service with the given configuration and command |
| ServiceManager.Manager.EnsureStopped | pkg/daemon/manager/manager.go:115-139 | stopping terminates when the running services form no cycle, is never refused, stops exactly the running services that depend on this one through running services, changes no configuration, and keeps a closed state closed after every step |
| ServiceManager.Manager.EnsureServiceState | pkg/daemon/manager/manager.go:101-145 | the wanted state is reached with exactly the starts or stops it entails, or starting failed because something needed does not exist; a service already there is left alone |
| ServiceManager.Manager.DeleteService | pkg/daemon/manager/manager.go:80-99 | never fails; the service is gone and exactly what ran on top of it is stopped; a missing service is no error; a safe manager stays safe after every step |
| ServiceManager.Manager.Erase | pkg/daemon/fake/manager.go:47-57 | removes exactly the one entry |
| ServiceManager.StartStep | pkg/daemon/fake/winsvc.go:28-44 | what one iteration of the start loop keeps, including the decreasing measure and why a failure of one dependency means that the service cannot start |
| ServiceManager.StartLast | pkg/daemon/fake/winsvc.go:45-46 | after the loop, setting the service to Running completes the boot and keeps a closed state closed |
| ServiceManager.StopStep | pkg/daemon/manager/manager.go:126-136 | what one iteration of the cascade keeps, including the decreasing measure |
| ServiceManager.StopLast | pkg/daemon/fake/winsvc.go:53-88 | after the loop no running service depends on the one to be stopped, so the Stop control is not refused |
| Reconcile.UpdateKeepsSafe | pkg/daemon/controller/controller.go:412-422 | stopping and reconfiguring a service keeps the manager safe when its new dependencies do not lead back to it |
| Reconcile.UpdatedSafe | pkg/daemon/controller/controller.go:359-422 | that is the case for the next service of a well-ordered list, although services later in the list still have their old dependencies |
| Reconcile.BehindCannotReach | pkg/daemon/controller/controller.go:359-380 | services already reconciled, and foreign ones, never depend on the next service of the list |
| Reconcile.CascadeAgrees | pkg/daemon/controller/controller.go:412-417 | the stop cascade of the next service hits exactly the services that depended on it before the whole pass |
| Reconcile.NextStartable | pkg/daemon/controller/controller.go:423-424 | the next service can be started if and only if its foreign dependencies exist, with all they depend on |
| Reconcile.NextState | pkg/daemon/controller/controller.go:359-424 | starting the next service leads from the closed-form state after i services to the one after i + 1; in particular no stop cascade undoes an earlier service |
| ServiceController.ServiceController.ReconcileService | pkg/daemon/controller/controller.go:385-425 | succeeds if and only if the command resolves and the reconfigured service can be started; then the service runs on the resolved command, with the managed tag and its name as description, and with the expected dependencies; gives the exact new state, and on failure what is left; every step is safe; a service that runs as expected causes no change at all |
| ServiceController.ServiceController.Reconfigure | pkg/daemon/controller/controller.go:412-422 | the update branch: stopping everything on top and replacing the configuration gives the exact new state, never fails and is safe at every step |
| ServiceController.ServiceController.EnsureService | pkg/daemon/controller/controller.go:360-379 | the same, with a stopped placeholder created first when the service is missing |
| ServiceController.ServiceController.ReconcileServices | pkg/daemon/controller/controller.go:354-382 | for a well-ordered list it succeeds if and only if every service is reconcilable; then every listed service exists and runs on its resolved command, with its description and its dependencies, and the whole state is the closed form `After`; otherwise it stops at the first service that is not, with at most a placeholder created or some of what that service needs started; every single change on the way keeps the manager acyclic and dependency-closed; when everything is installed already it makes no change |
| ServiceController.EarlierInstalled | pkg/daemon/controller/controller.go:359-381 | when it stops, all services before that one exist, run and hold what is expected |
| ServiceController.AfterSafe | pkg/daemon/controller/controller.go:359-381 | between any two services of the list the manager is safe |
| ServiceController.AfterInstalled | pkg/daemon/controller/controller.go:352-382 | at the end every listed service exists and runs on its resolved command, with its description and its dependencies, all at the same time |
| ServiceController.InstalledIsFixed | pkg/daemon/controller/controller.go:385-425 | a safe manager in which everything is installed is its own outcome |
| ServiceController.SecondRun | pkg/daemon/controller/controller.go:354-382 | after a successful pass the conditions hold again and a second pass changes nothing |
| Cleanup.RemoveServices | pkg/daemon/cleanup/cleanup.go:188-240 | succeeds for any list in any order from any state whose running services form no cycle; the listed services are gone, and an unlisted one is if and only if the flag is set and the managed tag occurs in its description; what is left keeps its configuration, and runs as the removal allows; every step is safe |
| Cleanup.RemoveTagged | pkg/daemon/cleanup/cleanup.go:204-233 | the second phase removes exactly the remaining services in whose description the managed tag occurs, in any order of the map |
| Cleanup.TaggedExactly | pkg/daemon/cleanup/cleanup.go:224-224 | tagged means that the managed tag occurs somewhere in the description |
| Cleanup.RemoveOne | pkg/daemon/cleanup/cleanup.go:197-201 | one removal more |
| Cleanup.MergeServices | pkg/daemon/cleanup/cleanup.go:152-168 | every name of the two lists exactly once, in any order; a name of the first list keeps the entry there that has no later namesake, and any other name the entry of the second list that has no earlier one |
| Cleanup.IndexServices | pkg/daemon/cleanup/cleanup.go:154-156 | under each name of the first list its last entry |
| Cleanup.AddServices | pkg/daemon/cleanup/cleanup.go:157-161 | names of the second list are added only where the first had none |
| Cleanup.ServicesInAnyOrder | pkg/daemon/cleanup/cleanup.go:162-166 | the values of the map, each once, in any order |
| Teardown.InstallThenRemove | pkg/daemon/cleanup/cleanup.go:188-240 | where nothing was installed, reconciling a list and then removing everything tagged restores the manager, except for foreign services that had to be started; without foreign dependencies nothing at all remains |
| Teardown.OthersIndependent | pkg/daemon/controller/controller.go:354-382 | what runs beside the installed services does not depend on them, so removal leaves it running |
| CycleCheck.DocumentedCheck | pkg/servicescm/servicescm.go:349-394 | the check as its comments describe it accepts a list, in whatever order, if and only if the managed dependencies form no cycle |
| CycleCheck.ExploreCorrect | pkg/servicescm/servicescm.go:358-361 | the meaning of the three states in the documented check: a reported cycle is one, and fully processed services form an acyclic, closed part |
| CycleCheck.AcceptedInspectedAcyclic | pkg/servicescm/servicescm.go:374-394 | the dependencies that an accepting run of the check as written has looked at, which include every service, form no cycle |
| CycleVerdict.DependenciesFirstAccepted | pkg/servicescm/servicescm.go:363-371 | as written, a list in which managed dependencies precede their dependents is accepted, and has no cycle |
| CycleVerdict.FirstsCycleRefused | pkg/servicescm/servicescm.go:379-390 | as written, when the first managed dependencies of the services form a cycle, every list of them is refused, in every order |
| CycleVerdict.OneDependencySound | pkg/servicescm/servicescm.go:374-394 | as written, when no service has two managed dependencies an accepted list has no cycle |
| CycleVerdict.NoChainAccepted | pkg/servicescm/servicescm.go:374-394 | as written, lists without a chain of two managed dependencies are accepted in every order |
| CycleVerdict.ChainRefused | pkg/servicescm/servicescm.go:384-388 | as written, every chain of two managed dependencies has an order in which an acyclic list is refused |
| CycleVerdict.AcyclicAlwaysRight | pkg/servicescm/servicescm.go:384-394 | for services without a cycle the verdict is right in every order if and only if there is no such chain |
| CycleVerdict.OneDependencyAlwaysRight | pkg/servicescm/servicescm.go:384-394 | with at most one managed dependency each, the verdict is right in every order if and only if there is a cycle or no chain |
| CycleVerdict.FirstsAlwaysRight | pkg/servicescm/servicescm.go:384-394 | when every cycle shows in the first managed dependencies, the verdict is right in every order if and only if there is a cycle or no chain |
| CycleVerdict.DistinctFirstsVerdict | pkg/servicescm/servicescm.go:384-394 | when no service is the first managed dependency of two, some order is accepted if and only if the first managed dependencies form no cycle, whatever other cycles there are; and an exact condition for the verdict to be right in every order |
| CycleVerdict.SharedFirstRefused | pkg/servicescm/servicescm.go:379-394 | as written, when a service that leads to a cycle is the first managed dependency of two, every list is refused, in every order |
| CycleVerdict.AlwaysRefused | pkg/servicescm/servicescm.go:374-394 | in both of these cases there is a cycle, and the verdict is right in every order |
| CycleVerdict.FirstsVerdict | pkg/servicescm/servicescm.go:374-394 | unless two services share a first managed dependency that leads to no cycle, some order is accepted if and only if the first managed dependencies form no cycle and are not shared; and the exact condition for the verdict to be right in every order |
| CycleVerdict.RefusesAcyclic | pkg/servicescm/servicescm.go:384-388 | a family of acyclic lists that is refused, and another order of it that is accepted |
| CycleVerdict.AcceptsCyclic | pkg/servicescm/servicescm.go:384-388 | a list with a cycle that is accepted |
| ServicesCM.CycleChecker.constructor | pkg/servicescm/servicescm.go:352-362 | the lookup map holds, per name, the dependencies listed last; no service is marked |
| ServicesCM.DependenciesLast | pkg/servicescm/servicescm.go:352-356 | for a name listed more than once the last entry counts |
| ServicesCM.CycleChecker.HasCycle | pkg/servicescm/servicescm.go:375-394 | terminates, and result and marks are those of the recursive specification of the check as written |
| ServicesCM.ValidateCycles | pkg/servicescm/servicescm.go:351-372 | the verdict on a list that may name a service twice |
| ServicesCM.DistinctVerdict | pkg/servicescm/servicescm.go:351-372 | for distinct names that verdict is the one whose meaning `CycleVerdict` states |
| ServicesCM.ValidateDependencies | pkg/servicescm/servicescm.go:314-347 | accepts if and only if no bootstrap service needs node variables or depends on a controller service, and the cycle check accepts |
| ServicesCM.ValidatePriorities | pkg/servicescm/servicescm.go:398-424 | for every outcome of the unstable sort, accepts if and only if each bootstrap priority is strictly below each controller priority, except that 2^64 - 1 is refused in a list without bootstrap services |
| ServicesCM.Overlap | pkg/servicescm/servicescm.go:414-419 | the comparison with the last bootstrap priority refuses only invalid lists |
| ServicesCM.SortExists | pkg/servicescm/servicescm.go:399-402 | every list has a sorted outcome, so the claims about sorted lists are never empty |
| ServicesData.NewData | pkg/servicescm/servicescm.go:109-121 | succeeds if and only if dependencies and priorities are valid, whatever the tie-break; the services are then a sorted permutation of the input |
| ServicesData.Parse | pkg/servicescm/servicescm.go:196-238 | succeeds if and only if there are two to four keys, the required ones are present, all that is not empty decodes, and the services are valid; then the parts are what the keys decode to, and nothing for optional keys that are absent or empty |
| ServicesData.RequiredKeysSuffice | pkg/servicescm/servicescm.go:197-236 | a map with the two required keys only is read, without any variables |
| ServicesData.GenerateDecodes | pkg/servicescm/servicescm.go:156-192 | what is sent is well-formed and decodes to the same services, files and variables |
| ServicesData.StillValid | pkg/servicescm/servicescm.go:255-260 | sorting a valid list whose managed dependencies have strictly lower priorities leaves it valid, however ties are broken |
| ServicesData.RoundTrip | pkg/servicescm/servicescm.go:154-238 | for such lists, built data survives being sent and read, and passes the comparison with what was sent |
| ServicesData.ReadableWhenAccepted | pkg/servicescm/servicescm.go:194-238 | without any condition on priorities, built data is read back unchanged if the cycle check accepts the services in the order sent, and is refused otherwise |
| ServicesData.NoChainReadable | pkg/servicescm/servicescm.go:194-238 | without a chain of two managed dependencies, built data is read back unchanged whatever the priorities and tie-breaks |
| ServicesData.TiesReadable | pkg/servicescm/servicescm.go:396-402 | for services of one priority without a cycle, every tie-break can be read back if and only if there is no such chain |
| ServicesData.RoundTripFails | pkg/servicescm/servicescm.go:255-260 | without that order of priorities data can be built that is refused when read back |
| ServicesData.AcceptsPermutations | pkg/servicescm/servicescm.go:264-310 | for distinct expected services and files the comparison accepts if and only if both are permutations of the expected ones and all variables are equal |
| ServicesData.GetBootstrapServices | pkg/servicescm/servicescm.go:241-251 | the longest prefix of bootstrap services |
| ServicesData.PrefixIsFilter | pkg/servicescm/servicescm.go:241-251 | for valid sorted lists that prefix is the filter by the bootstrap flag |
| ServicesData.BootstrapClosed | pkg/servicescm/servicescm.go:253-260 | bootstrap services reach only bootstrap services through managed dependencies, however far |
| ServicesData.SortedIsWellOrdered | pkg/services/services.go:38-55 | a sorted list with ordered priorities, and every prefix of it such as the bootstrap services, meets the conditions of reconciliation |
| Upgrade.UpgradesCapped | controllers/controllers.go:269-300 | in every run, with any API failures and nodes removed at any time, at most the allowed number of nodes carries the upgrading label; cordoning, draining and cleaning up for an upgrade happen to a labelled node if and only if the node was not unregistered after the upgrade had been allowed |
| Upgrade.LabelledExactly | controllers/controllers.go:87-93 | the invariant of whole runs behind the second part |
| Upgrade.InvAlways | controllers/controllers.go:62-96 | the invariant of single states: exclusive work, the lock held exactly while somebody counts and labels, the room left under the cap, the desired version |
| Upgrade.BranchTaken | controllers/controllers.go:67-95 | whether an attempt stops, upgrades or only configures is decided by the version annotation that was read: the operator's own, another one, or none |
| Upgrade.UpgradeCompletes | controllers/controllers.go:62-96 | from every initial state a node at another version, with room under the cap, can be upgraded: an attempt without failures ends with the operator's version, without label and cordon, with the daemon in place, the lock free and nothing else changed |
| Upgrade.ConfigureCompletes | pkg/nodeconfig/nodeconfig.go:144-245 | a node without a version, such as one left by a failed attempt, is configured in the same way, and loses the label if it has one |
| Upgrade.UpgradingStep | controllers/controllers.go:269-288 | how the set of labelled nodes changes in one event |
| Upgrade.LabelStep | pkg/nodeconfig/nodeconfig.go:223-230 | only the last step of Configure, after uncordoning, or the node's own removal takes a label away |
| Upgrade.LabelSurvives | pkg/nodeconfig/nodeconfig.go:179-244 | over whole runs: a label that is gone was dropped in that step, so it survives every failed attempt, even once the version annotation is gone and no upgrade is required any more |
| Upgrade.WriteFollowsPass | pkg/daemon/controller/controller.go:258-296 | a version is written only at the end of one unbroken pass that read it as desired version, found its ConfigMap, had no reason to ask for a reboot, reconciled all services and saw the node ready |
| Upgrade.RebootExactly | pkg/metadata/metadata.go:124-157 | a node has the reboot annotation if and only if a write of it, by the daemon or by any run of the cleanup command, is newer than its last removal, or it was there all along |
| Upgrade.WriteDespiteReboot | pkg/daemon/controller/controller.go:275-296 | a version is written with a reboot outstanding if and only if such an annotation is there; every annotation, whoever wrote it, is older than the pass that writes the version |
| Upgrade.PassSinceIdle | pkg/daemon/controller/controller.go:244-297 | a pass under way began after the daemon was last idle, which includes the removal of its service |
| Upgrade.RebootIgnored | pkg/daemon/controller/controller.go:217-234 | from every initial state, two passes lead to a write with a reboot outstanding |
| Upgrade.RebootLeftByCleanup | pkg/windows/windows.go:532-557 | from every initial state in which a node has no version, one attempt without any failure leads to such a write, because its own cleanup asked for the reboot |
| Upgrade.OnlyWritesVersions | pkg/metadata/metadata.go:114-117 | no other event gives a node a version |
| Upgrade.UncordonFollowsObservation | pkg/nodeconfig/nodeconfig.go:204-230 | Configure uncordons and drops the label only after it started the daemon, set the desired version and saw the version equal to it in the same attempt, and after the daemon wrote that version since the attempt began or last removed a version |
| Upgrade.UncordonFollowsPass | pkg/nodeconfig/nodeconfig.go:172-230 | when the attempt's own bootstrap cleanup removed the version, a whole pass of the daemon for the operator's version lies between that cleanup and the uncordoning |
| Upgrade.WrittenSinceAt | pkg/metadata/metadata.go:161-179 | the write that was waited for happened after the attempt began and last removed a version, and ended a complete pass for the operator's version |
| Upgrade.ObservedIsOwn | pkg/metadata/metadata.go:168-172 | the version observed is the operator's own |
| Condition.Tracker.CheckCondition | pkg/condition/condition.go:124-131 | true if and only if there is a condition of the type and the first one has the expected status |
| Condition.Tracker.SetCondition | pkg/condition/condition.go:137-150 | the patch replaces all conditions by the new one unless it is refused; success if and only if the patch returns without error and the change is picked up |
| Condition.Tracker.MarkAsBusy | pkg/condition/condition.go:91-121 | the controller is in the busy set in any case; an error if and only if reading fails, or the condition is not False already and setting it fails; and the new conditions |
| Condition.Tracker.MarkAsFree | pkg/condition/condition.go:53-87 | the controller leaves the busy set in any case; an error if and only if nobody else is busy and reading fails, or the condition is not True already and setting it fails; and the new conditions |
| Condition.NeverUpgradeableWhileOwing | pkg/condition/condition.go:53-121 | in every run with arbitrary failures, Upgradeable is not True while some controller is between a successful MarkAsBusy and its own free |
| Condition.FaultlessUpgradeable | controllers/controllers.go:259-265 | in runs without failures, Upgradeable is True if and only if the busy set is empty, once any call has completed |
| Condition.BusyStaysUpgradeable | pkg/condition/condition.go:91-121 | for every state and every outcome of the API calls, MarkAsBusy leaves Upgradeable True if and only if it was True and reading failed or the patch was refused; it then returns an error |
| Condition.ExposedExactly | pkg/condition/condition.go:53-121 | in every run some controller is busy with Upgradeable True if and only if, since the busy set was last empty with Upgradeable True, every call of MarkAsBusy was lost in that way |
| Condition.BusyAndOwing | controllers/controllers.go:259-265 | in every run the busy controllers are those that called MarkAsBusy and have not freed themselves since, the owing ones those for which one of these calls succeeded |
| Condition.FailedBusyMayStayUpgradeable | pkg/condition/condition.go:100-108 | the shortest run in which this happens, for every controller and exactly the lost calls |
| MachineRollout.HealthAsDocumented | controllers/windowsmachine_controller.go:481-503 | what the health check computes for every machine; it is what its comment says if and only if a versioned node belongs to a Running machine and a machine without a node reference is not Running |
| MachineRollout.IsAllowedDeletion | controllers/windowsmachine_controller.go:458-478 | in any listing order, the deletion is allowed if and only if one replica is asked for, or the check fails for no machine of the set and at least as many non-deleting machines as replicas have a node with the version annotation; it fails if and only if it meets a machine whose check fails |
| MachineRollout.DeletionStep | controllers/windowsmachine_controller.go:274-291 | with at least two replicas, a deletion starts from exactly all replicas healthy and leaves one fewer; no other event lowers the number |
| MachineRollout.EveryDeletion | controllers/windowsmachine_controller.go:274-291 | the same over whole runs: every deletion starts from exactly all replicas healthy and leaves one fewer |
| MachineRollout.NeverBelow | controllers/windowsmachine_controller.go:437-479 | in every run at most one replica is missing |
| MachineRollout.MachineReplaced | controllers/windowsmachine_controller.go:274-291 | with all machines of a set healthy, any of them is allowed to be deleted, is deleted and can be replaced, after which all are healthy again |
| MachineRollout.RolloutCompletes | controllers/windowsmachine_controller.go:274-291 | so all outdated machines of a set can be replaced, one after the other |
| MachineRollout.InvNext | controllers/windowsmachine_controller.go:274-291 | a decided deletion stays allowed until it is carried out |
| MetadataPatch.GeneratePatch | pkg/metadata/metadata.go:31-47 | refused if and only if there is nothing to do; otherwise one operation per label and annotation, in any order of the maps |
| MetadataPatch.GenerateAddPatch | pkg/metadata/metadata.go:69-75 | the same for adding |
| MetadataPatch.GenerateRemovePatch | pkg/metadata/metadata.go:79-93 | the same for removing, each listed name once however often it is listed |
| MetadataPatch.DecodeEscape | pkg/metadata/metadata.go:96-99 | the escaped key decodes to the key if and only if it has no "~" |
| MetadataPatch.PathTargets | pkg/metadata/metadata.go:36-45 | the generated path addresses that label or annotation if and only if the key has no "~", is not empty and not a dot element |
| MetadataPatch.PlainPath | pkg/metadata/metadata.go:36-45 | a label or annotation is addressed below its own part of the metadata, by the key with "/" escaped |
| MetadataPatch.AddOverwrites | pkg/metadata/metadata.go:67-75 | in every order, an add patch sets exactly the given entries, overwriting existing ones, and keeps all others |
| MetadataPatch.RemoveTransactional | pkg/metadata/metadata.go:77-93 | in every order, a remove patch deletes exactly the given entries if all exist, and otherwise changes nothing |
| MetadataPatch.RemoveUndoesAdd | pkg/metadata/metadata.go:101-157 | removing new entries undoes adding them, whatever the two orders were |
| ImagePath.ExtractMirrorURL | pkg/registries/registries.go:51-67 | the loop computes the mirror location without the shared trailing pieces |
| ImagePath.MirrorURLIsOwnPart | pkg/registries/registries.go:50-67 | exactly the longest suffix that the source shares is removed: appending it again rebuilds the mirror location, and no longer suffix is shared |
| ImagePath.OwnPartExactly | pkg/registries/registries.go:51-67 | the location without that suffix is the only text so described |
| ImagePath.JoinSplit | pkg/registries/registries.go:52-53 | joining undoes splitting, for every text |
| ImagePath.SplitJoin | pkg/registries/registries.go:66-66 | splitting undoes joining, for pieces without a separator |
| ImagePath.CommonSuffixLongest | pkg/registries/registries.go:56-65 | no longer suffix is shared |
| Registries.MergeMirrors | pkg/registries/registries.go:189-216 | each host of the two lists exactly once, resolving tags if and only if it does in one of them |
| Registries.IndexByHost | pkg/registries/registries.go:194-196 | the first loop: the existing mirrors by host |
| Registries.AddMirrors | pkg/registries/registries.go:198-208 | the second loop: a new mirror is added, or adds tag resolution |
| Registries.MergeMirrorSets | pkg/registries/registries.go:139-171 | strictly ascending sources, exactly those of the input; per source exactly the contributed hosts in ascending order, tag resolution if and only if some set contributed it, and the first policy other than Allow |
| Registries.SortMirrorSets | pkg/registries/registries.go:174-185 | sorting keeps all sets and mirrors and orders both |
| Registries.OutputUnique | pkg/registries/registries.go:137-171 | these conditions determine the output: it is the same sequence for every permutation of the input, traversal of the maps and tie-break of the sorts |
| Registries.NeverPreferred | pkg/registries/registries.go:151-154 | for the entries of one source, the policy is Never exactly when some entry says so, in every order, if and only if an unset policy and Never do not both occur |
| Registries.MixedDepends | pkg/registries/registries.go:151-154 | a source whose first two entries are an unset and a Never one comes out differently when these are swapped |
| Registries.OutputByPolicies | pkg/registries/registries.go:137-171 | only the policies can depend on the order of the entries |
| MirrorOrder.OrderIndependentExactly | pkg/registries/registries.go:137-171 | for the merge itself, over all permutations of its argument: the output is the same for every order, traversal and tie-break if and only if no source has both an unset and a Never entry |
| MirrorOrder.OutputExists | pkg/registries/registries.go:139-171 | every list of consistent entries has a merged configuration, so the claims about it are never empty |
| Registries.GetMergedMirrorSets | pkg/registries/registries.go:117-135 | the merged configuration, digest entries first; in terms of the entries, its sources are exactly their registries; under each, the hosts are exactly the listed locations without the longest suffix shared with the source, or the registry of a location equal to the source; they resolve tags if and only if a tag entry lists them; the policy is that of the first entry that does not say Allow |
| Registries.HostsComeFromEntries | pkg/registries/registries.go:36-48 | which hosts the entries contribute for a source |
| Registries.PolicyComesFromEntries | pkg/registries/registries.go:80-87 | which policy the entries lead to for a source |
| MirrorOrder.ResourceOrderExactly | pkg/registries/registries.go:115-135 | that configuration is one and the same for every order of the entries of either kind, traversal and tie-break if and only if no source mixes an unset policy and Never among its digest entries, nor, when all of these say Allow, among its tag entries |
| Registries.AllSetsConsistent | pkg/registries/registries.go:80-87 | mirrors of one entry agree on tag resolution, so merging never has to choose |
| Registries.TagsComeFromTagSets | pkg/registries/registries.go:121-132 | a host of a source resolves tags if and only if an ImageTagMirrorSet lists it for that source |
| Sorting.SortUnique | pkg/registries/registries.go:177-184 | when the key determines the element, every outcome of an unstable sort is the same sequence |
| Sorting.LessExactly | pkg/registries/registries.go:177-184 | alphabetical order: the first difference decides, and a proper beginning comes first |
| UsernameFraming.RoundTrip | pkg/crypto/crypto.go:66-87 | an armored block is restored character for character if and only if its body has no marker, does not begin with the start tag, and has no leading or trailing newline |
| UsernameFraming.UnmarkMark | pkg/crypto/crypto.go:27-35 | replacing markers undoes replacing newlines if and only if the text contains no marker |
| UsernameFraming.OldFormat | pkg/crypto/crypto.go:84-87 | a stored block of the old format, which still has its tags, passes through unchanged |
| UsernameFraming.StoredOnOneLine | pkg/crypto/crypto.go:27-29 | what is stored contains no newline, whatever the block |

## Left out

- SSH, SFTP, PowerShell, payload transfer, certificates and environment variables: remote effects, present only as steps that may fail, or that changed something or not.
- Polling, time-outs, `WaitForState` and the termination of stalled processes: a step reaches its state or fails.
- States of a service other than Running and Stopped, case-insensitive service names, and failures of the service manager's own calls. `pkg/daemon/fake` is taken as the statement of its behaviour.
- ServiceManager.FakeService.Control: models the Stop control only.
- ServiceManager.Manager.EnsureServiceState: requests for states other than Running and Stopped are not modelled.
- ServiceController.ServiceController.ReconcileServices: requires that names are distinct and that each dependency is listed earlier or is foreign to the list, which validated ConfigMaps with ordered priorities satisfy; the expected command is a function of the service, so variable lookup and text substitution are not modelled.
- CycleCheck.AcceptedInspectedAcyclic: one direction only.
- CycleVerdict.FirstsVerdict: requires that a first managed dependency shared by two services leads to a cycle. What remains are services with a cycle for which the first managed dependencies form none, no shared one leads to a cycle, and some shared one does not; which orders of those the check as written refuses is not characterised.
- CycleVerdict.OneDependencySound: the condition is sufficient; an accepted list without a cycle may violate it.
- ServicesData.RoundTrip: JSON text is represented by what it decodes to, so encoding and decoding are exact inverses; absent and empty slices are not told apart. For data built from other lists `ServicesData.ReadableWhenAccepted` says exactly when it can be read.
- ServicesData.NewData: the sort rearranges the caller's slice in place; here its outcome is a parameter, which may be any sorted permutation, so that aliasing is not captured. The same holds for `Parse`.
- Sorting.Sort: stands for the library's sort of a slice in place; only its contract, which leaves ties open, is used, and the sorted list is a new value.
- Registries.OutputUnique: requires that no source mixes an unset policy with Never; the exact conditions are those of `MirrorOrder.OrderIndependentExactly` and `MirrorOrder.ResourceOrderExactly`.
- Registries.MergeMirrorSets: a source with a single set keeps duplicate hosts of that set, as in the code. The registry host of an image location is a parameter, since it rests on a URL parser; generating TOML is not modelled.
- Upgrade.UpgradesCapped: assumes that reads see earlier writes and that no two controllers work on the same node at the same time. A run begins with no controller at work. The order of steps inside remote work, and the cordoning and uncordoning in `SafeReboot`, are not modelled; restarting an instance and removing the reboot annotation are two events that may happen at any time, and so are removing a node and cleaning up an instance that is to be removed.
- Upgrade.WriteFollowsPass: a run begins with every daemon between passes; a pass already under way at its beginning is not described.
- Upgrade.UncordonFollowsPass: the cleanup command leaves the version alone when it finds no node for its addresses; the write is then known to be newer than the beginning of the attempt only.
- Upgrade.WriteDespiteReboot: environment variables and certificates are one step that changed something or not, so the wait for processes to pick up changed variables, which a pass after a change of variables does not survive without a reboot, is part of that step's failure.
- MachineRollout.NeverBelow: assumes a fixed number of replicas, no more non-deleting machines than replicas, an owner for every machine, names that are not reused while a deletion is being decided, no failures from outside, and deletions only by this branch.
- MetadataPatch.AddOverwrites: assumes that the node has label and annotation maps; a path that addresses something else than one entry is outside the model.
- UsernameFraming.RoundTrip: encryption and the armor inside the body are opaque (section 6.2 of RFC 4880 is not modelled).
- Merging the lists of watched variables, manifests, certificate requests, address lookups, RBAC, metrics and command-line entry points: they would add only easy members or rest on foreign libraries.
