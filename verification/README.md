# A verified model of Keel

Keel runs services as FreeBSD jails on a set of nodes. A control plane keeps tables of nodes, services, placements,
addresses, standbys and pending fences; every node runs an agent that provisions jails, replicates volumes to a standby
and installs routes to the other nodes. This project models four parts of it and proves what they keep.

* **Control plane** (`text`, `subnet`, `addresses`, `scheduler`, `registry`, `services`, `plan`, `protocol`, `cluster`).
  `Plan` gives the meaning of a reconcile pass and of executing its actions; `Protocol` gives every state-changing request
  handler as a step on the six tables and on the set of jails the nodes hold; `Cluster.ControlPlane` is the object whose
  methods work the tables in place, each proved equal to its step. On top stand `Convergence`, `Capacity`,
  `Replacement`, `Rounds`, `Spreading`, `PlanAddresses`, `SingleHolder`, `Fencing`, `Handlers`, `Pinning`, `AddressRuns`,
  and the runs in `Counterexamples` and `StaleEntries`, which start from an empty control plane.
* **Node reconciler** (`machine`, `host`, `reconciler`, `half_made`, `backoff`). The host is the state of the four managers and the
  record store. Any call can fail, fail after taking effect, or be cut off by a crash of the daemon.
* **Snapshot replication** (`header`, `replication`). Snapshots have contents, incremental streams carry deltas.
* **Routes** (`routes`).

Forwarded calls and operating-system calls are answered by an outcome function that the theorems quantify over, so "for
any subset of failing calls" is meant literally. Times are natural numbers of nanoseconds. A request handler is one atomic
step with one reading of the clock; a forwarded call that fails has no effect. Volume sizes, commands and other template
fields are only ever compared.

Some natural properties are false of the code. For each the exact condition under which it holds is proved for all inputs,
and a run or input that breaks it is given:

* A second force-repin of a replica while its first fence is outstanding overwrites that fence. Holders stay accounted for
  exactly when the forgotten node no longer holds the jail or is one of the two nodes involved (`RepinHeldIff`,
  `StepHeldIff`; `SecondRepinLosesAHolder` is a run of seven requests from an empty control plane).
* Deleting a replica's jail directly on one node drops its placement even if that points elsewhere (`DirectDeleteHeldIff`;
  `DirectDeleteLosesAHolder` is a run in which the fenced old primary is deleted directly and the new one is forgotten).
* Deleting a jail directly leaves its address entry behind. Addresses stay in order exactly as long as no request parts an
  entry from its placement (`StepAddressesIff`); after that, a round keeps them exclusive exactly when no action is given
  the address another replica of the same plan still holds (`RoundKeepsAddressesIff`). `StaleEntryIsReused` is a run of six
  requests, for any prefixes, node and service, that ends with two running replicas on one address.
* A standby that holds a snapshot other than the sender's base can never be brought in step again, however replication is
  pointed elsewhere and back (`SyncsIff`, `WedgedForever`). A standby in step stays so over a run exactly when every tick to it
  leaves sender and standby of one mind and no tick to another moves the base (`RunStaysSyncedIff`); one stream the sender
  believes complete but the standby did not receive is enough to lose it (`LostStreamWedges`).
* The sender does not keep a fixed number of snapshots: each send that fails leaves one behind that is never pruned
  (`SnapshotCount`); the number is constant exactly while every send goes through (`SteadyState`).
* One successful route call does not always converge after an earlier failure; it does exactly when the table is `Clear`
  (`ConvergesIff`, `OneCallCanFallShort`), and two in a row do after any history (`TwoCleanCallsEndAnyRun`).
* The replication header round-trips exactly when its strings are shorter than 2^32 bytes, so every longer string breaks it
  (`HeaderRoundTripIff`).
* A finished attempt on an existing jail leaves it provisioned exactly when its root, mounts and volumes were there before
  (`ReconcileOne`): the code restarts what exists and never mounts again. `HalfMadeForGood` crashes the daemon right after a
  jail was created; the restarted daemon then runs that jail without its volume through every later pass.

The documented 300 s ceiling of the crash-loop back-off is never reached: with attempts gated the way the reconciler gates
them, 60 s resets the delay before it passes 64 s (`ArmedAtMost64`, `CrashLoopRate`).

Verify with `dafny verify dfyconfig.toml`.

## Model

| member | source | states |
|---|---|---|
| Text.ReplicaIndexIff | keel-controlplane/src/services.rs:115-126 | a jail name is recognised as index i of a service exactly when it is that service's replica name for i, i a u32 |
| Text.ReplicaNameInjective | keel-controlplane/src/services.rs:115-117 | a replica name determines its service and index |
| Text.OneService | keel-controlplane/src/services.rs:122-140 | no jail name belongs to two services |
| Text.SortKeys | keel-controlplane/src/services.rs:66-71 | listing a hash map's keys gives their sorted enumeration |
| Text.EnumerationUnique | keel-controlplane/src/services.rs:66-71 | the sorted listing does not depend on hash-map order |
| Subnet.Fnv1a | keel-controlplane/src/subnet.rs:38-47 | the byte loop computes the FNV-1a fold in wrapping 32-bit arithmetic |
| Subnet.WrapIsHarmless | keel-controlplane/src/subnet.rs:32-36 | the u32 wrap-around does not disturb the remainder by a power-of-two host count |
| Subnet.DeriveServiceVip | keel-controlplane/src/subnet.rs:26-36 | every probe address lies in the service prefix |
| Subnet.ProbeVisitsBlockOnce | keel-controlplane/src/subnet.rs:19-36 | the probe sequence visits every address of the block and none twice |
| Subnet.ProbesGoRound | keel-controlplane/src/subnet.rs:26-36 | the probes start at the service's hash and go round the block one by one, despite the u32 wrap-around |
| Subnet.DerivePodCidr | keel-controlplane/src/subnet.rs:6-17 | a node's block is an aligned /24 inside the cluster prefix |
| Subnet.SameBlockIff | keel-controlplane/src/subnet.rs:6-17 | two ids derive one block exactly when their hashes agree modulo the block count |
| Subnet.PodBlocksDisjoint | keel-controlplane/src/subnet.rs:6-17 | distinct /24 blocks share no address |
| Addresses.RecordConsistent | keel-controlplane/src/addresses.rs:23-27 | recording a free address keeps the per-node sets equal to the image of an injective per-jail map |
| Addresses.ReleaseConsistent | keel-controlplane/src/addresses.rs:29-35 | releasing keeps that too, and frees nobody else's address |
| Addresses.RecordTakenBreaks | keel-controlplane/src/addresses.rs:23-27 | recording an address another jail holds breaks it |
| Addresses.FirstFreeAddress | keel-controlplane/src/addresses.rs:42-49 | the lowest assignable untaken address; none exactly when all assignable ones are taken |
| Addresses.RefusalNeedsFullBlock | keel-controlplane/src/addresses.rs:42-49 | a /24 block is refused only when at least 253 addresses are taken |
| Addresses.UsedAddresses.Record | keel-controlplane/src/addresses.rs:23-27 | the two tables move together and stay consistent for a free address |
| Addresses.UsedAddresses.Release | keel-controlplane/src/addresses.rs:29-35 | the two tables move together; releasing an unknown jail changes nothing |
| Scheduler.HeadroomIsScarcest | keel-controlplane/src/scheduler.rs:30-39 | the score is the scarcer of the two free fractions; a resource a node has none of counts as nothing free |
| Scheduler.PickNodeIsGreatest | keel-controlplane/src/scheduler.rs:16-39 | the chosen node has the greatest headroom and the smallest id among ties; none only for no nodes |
| Scheduler.PickNodeIgnoresOrder | keel-controlplane/src/scheduler.rs:16-29 | the choice depends on the set of nodes, not on their order |
| Registry.Resolve | keel-controlplane/src/registry.rs:153-160 | an id resolves, to its registered address, exactly when it is registered and heartbeated less than 15 s ago; otherwise it is unknown or dead with the time since |
| Registry.RegisteredKeepsBlocks | keel-controlplane/src/registry.rs:53-87 | blocks stay pairwise distinct and fixed per id; only an unregistered id can collide |
| Registry.BeatenKeepsBlocks | keel-controlplane/src/registry.rs:89-107 | heartbeats never move a block |
| Registry.HeardFor15s | keel-controlplane/src/registry.rs:89-107 | a heartbeat keeps a node alive for exactly 15 s, shows what it reported and changes nothing else |
| Registry.RegisteredFor15s | keel-controlplane/src/registry.rs:53-87 | a registration that is not refused does so for what it brings, with nothing committed |
| Registry.BlocksSeparateNodes | keel-controlplane/src/registry.rs:53-87 | an address in two nodes' blocks means they are one node |
| Registry.NodeRegistry.Register | keel-controlplane/src/registry.rs:53-87 | accepted exactly when no other node has the block the id derives; a collision names that node and changes nothing; otherwise the fresh record is stored |
| Registry.NodeRegistry.Heartbeat | keel-controlplane/src/registry.rs:89-107 | a known node is refreshed, an unknown one reported |
| Registry.NodeRegistry.ListAlive | keel-controlplane/src/registry.rs:130-151 | the alive nodes in id order, however the map iterates |
| Services.RefusedExactlyWhenFull | keel-controlplane/src/services.rs:98-103 | a new service is refused for want of an address exactly when every address of the prefix is in use |
| Services.AppliedIff | keel-controlplane/src/services.rs:79-107 | a known service is accepted exactly with its own template and port, a new one exactly while an address is free, and the record is what was asked for |
| Services.FirstVip | keel-controlplane/src/services.rs:96-103 | the first probe whose address is not in use |
| Services.ApplyKeepsVips | keel-controlplane/src/services.rs:79-107 | applying keeps virtual addresses distinct and in the prefix, and changes nothing but the desired count of an existing service |
| Services.ServiceTable.Apply | keel-controlplane/src/services.rs:79-107 | template and port changes and an exhausted pool are refused without effect, otherwise the table is updated |
| Services.OwnerIs | keel-controlplane/src/services.rs:132-140 | a placed replica name of a service is owned by that service and no other |
| Services.FindOwner | keel-controlplane/src/services.rs:132-140 | the scan finds the same owner in any hash-map order |
| Services.LowestMissing | keel-controlplane/src/services.rs:147-152 | exactly the lowest missing indices, ascending, below present plus missing |
| Services.Highest | keel-controlplane/src/services.rs:153-156 | exactly the highest present indices, descending |
| Services.DiffInRange | keel-controlplane/src/services.rs:147-160 | indices to add are missing and below the desired count, indices to remove are present, none twice |
| Services.PickSpreads | keel-controlplane/src/services.rs:177-187 | the best candidate that is not busy; a busy one, the best of all, only when every candidate is |
| Plan.PickIsChoice | keel-controlplane/src/services.rs:177-187 | so for the alive nodes of a state; none only when nobody is alive |
| Convergence.PlanIsWell | keel-controlplane/src/worker.rs:246-352 | every action adds a missing in-range index or removes a present one, on an alive node; no service gets more actions than its gap |
| Convergence.CountAfter | keel-controlplane/src/http.rs:478-520 | after any number of actions with any outcomes, a service's count has moved by exactly its successes |
| Convergence.NeverOvershoots | keel-controlplane/src/http.rs:478-520 | whichever calls succeed, each service's gap shrinks by its successes and the count never passes the desired one |
| Capacity.OneRoundConverges | keel-controlplane/src/worker.rs:246-352 | in any state, if excess is reachable and every alive node has the addresses that headroom and spread assign to it, one successful round reaches every desired count and the next plan is empty |
| Capacity.OneRoundConvergesIff | keel-controlplane/src/worker.rs:303-349 | with address entries that follow the placements, it reaches them only then |
| Capacity.AddIff | keel-controlplane/src/worker.rs:309-318 | a missing index is scheduled exactly when its node has a free address, and takes that one only |
| Capacity.RoomIsEnough | keel-controlplane/src/worker.rs:303-349 | it is enough that each alive node has as many free addresses as replicas are missing in all |
| Replacement.PresentIsLiving | keel-controlplane/src/worker.rs:287-302 | what a pass counts as present are the placed replicas, without volumes only those on a node heard of less than 15 s ago |
| Replacement.RoundServesAll | keel-controlplane/src/worker.rs:246-352 | with that room, one successful round leaves every service exactly its desired number of such replicas |
| Replacement.RoundServesAllIff | keel-controlplane/src/worker.rs:246-352 | where entries follow the placements, only then |
| Replacement.PlanStartsAndStops | keel-controlplane/src/services.rs:142-160 | which replicas a plan starts and stops, told from the living ones, their indices and the desired count |
| Replacement.DeadReplicaIsReplaced | keel-controlplane/src/worker.rs:287-292 | a replica without volumes on a dead node is started on an alive one, if it is within the count and there is room |
| Replacement.ApplyServes | keel-controlplane/src/http.rs:335-367 | an accepted apply with room and no failing call ends with every service at its count |
| Replacement.HeartbeatServes | keel-controlplane/src/http.rs:569-597 | so does a known node's heartbeat |
| Rounds.RoundShowsConfirmed | keel-controlplane/src/http.rs:478-520 | after a round the tables show each confirmed action in full and no trace of the others |
| Rounds.RoundSparesOthers | keel-controlplane/src/http.rs:478-520 | replicas the plan does not name are untouched |
| Spreading.PlanSpreads | keel-controlplane/src/worker.rs:303-338 | each replica goes to the best alive node hosting none of its service, placed or earlier in the pass, and to the best of all only if every one hosts one; its standby is the next such node, or none if that cannot take replication |
| PlanAddresses.PlanNamesDistinct | keel-controlplane/src/worker.rs:267-349 | one pass never holds two actions for one replica |
| PlanAddresses.PlanIsFresh | keel-controlplane/src/worker.rs:265-318 | a plan's addresses are assignable, pairwise distinct, and free unless held by a replica the plan reschedules |
| PlanAddresses.RoundKeepsAddressesIff | keel-controlplane/src/worker.rs:265-318 | addresses stay exclusive under every pattern of failing calls exactly when no action gets an address another replica of the plan still holds |
| PlanAddresses.AnchoredPlansAreSafe | keel-controlplane/src/worker.rs:265-318 | that holds whenever address entries follow the placements |
| Protocol.ConflictIff | keel-controlplane/src/worker.rs:231-245 | a service may be applied exactly when it exists or none of its replica names below the desired count is placed |
| Protocol.RepinUsesThreeNodes | keel-controlplane/src/worker.rs:429-500 | a prepared force-repin has three different nodes, an unreachable primary, alive standby and fresh standby, and a free address |
| Protocol.PreparedIff | keel-controlplane/src/worker.rs:429-500 | exactly when a force-repin can be prepared |
| Protocol.RefusedFor | keel-controlplane/src/worker.rs:429-500 | which refusal is given when |
| Protocol.RepinLeavesThreeNodes | keel-controlplane/src/http.rs:242-286 | after it the placement is the old standby, the fence the old primary, and the new standby a third alive node with a replication address |
| Protocol.RepinSparesOthers | keel-controlplane/src/http.rs:242-286 | the promoted node takes the jail, and no other replica's entries move |
| SingleHolder.ExecHeld | keel-controlplane/src/http.rs:478-520 | executing any part of a plan keeps every holder of a replica with volumes accounted for |
| SingleHolder.FencedHeld | keel-controlplane/src/http.rs:443-469 | discharging any of a node's fences keeps it |
| SingleHolder.RepinHeldIff | keel-controlplane/src/http.rs:242-286 | a promotion keeps it exactly when no third node still holds the replica under the fence it overwrites |
| SingleHolder.StepHeldIff | keel-controlplane/src/http.rs:124-178 | a registration, heartbeat, service apply or force-repin keeps it unless it is such a promotion |
| SingleHolder.DirectDeleteHeldIff | keel-controlplane/src/http.rs:150-156 | a direct delete keeps it exactly when the placement is not another holder without a fence |
| SingleHolder.SingleHolderSafety | keel-controlplane/src/http.rs:242-286 | in every state of every run of these four requests without such a promotion, each holder of a replica with volumes is its placement or owed its fence; at most two holders, at most one without a fence |
| Fencing.HeartbeatDischarges | keel-controlplane/src/http.rs:443-469 | a known node's heartbeat discharges exactly the fences it owes whose delete was answered, jail and all; other fences and jails stay |
| Fencing.FenceEndsSecondHolder | keel-controlplane/src/http.rs:443-469 | in a covered run, from then until the next force-repin of a replica with volumes, its placement is its only holder |
| Handlers.ServiceDeleted | keel-controlplane/src/http.rs:392-410 | the service goes; each replica in reach is gone or, its call having failed, as it was; all are gone if no call fails; everything else stays |
| Handlers.ServiceAcceptedIff | keel-controlplane/src/worker.rs:231-245 | exactly when a service is accepted |
| Handlers.RefusalsChangeNothing | keel-controlplane/src/http.rs:242-286 | refused requests leave every table as it was |
| Handlers.PutJailLands | keel-controlplane/src/http.rs:135-145 | a direct apply takes effect exactly when no service owns the name, the node is alive and the call succeeds |
| Handlers.ScheduledJailLands | keel-controlplane/src/http.rs:180-205 | a scheduled apply goes to the placed node or else the best alive one |
| Handlers.DeletedJailGoes | keel-controlplane/src/http.rs:222-240 | a direct delete drops the placement and the jail on the node it names, and nothing else |
| Pinning.ReplacesOnlyUnreachable | keel-controlplane/src/worker.rs:287-302 | a plan moves a placed replica only if it has no volumes and its node is unreachable |
| Pinning.StepPins | keel-controlplane/src/http.rs:124-178 | every handler but a force-repin of the replica leaves the placement of a replica with volumes alone or removes it |
| Pinning.RunPins | keel-controlplane/src/worker.rs:287-302 | over any run, while the service exists with volumes and the replica stays placed, only a force-repin changes its node |
| AddressRuns.StepAddressesIff | keel-controlplane/src/worker.rs:265-317 | a handler keeps address tables consistent, anchored to placements and inside the nodes' blocks exactly when it does not part an entry from its placement |
| AddressRuns.AddressesUniqueInRuns | keel-controlplane/src/addresses.rs:5-12 | in every state of every run of all nine handlers in which no request has parted an entry from its placement, no two replicas have one address |
| AddressRuns.StepVips | keel-controlplane/src/services.rs:73-107 | every handler keeps virtual addresses distinct, in the prefix, and fixed for a surviving service |
| AddressRuns.VipsUniqueInRuns | keel-controlplane/src/services.rs:73-107 | so in every state of every run |
| Counterexamples.SecondRepinLosesAHolder | keel-controlplane/src/pending_fences.rs:13-15 | a run in order up to its last step, a second force-repin, which leaves a holder unaccounted for |
| Counterexamples.DirectDeleteLosesAHolder | keel-controlplane/src/http.rs:150-156 | a run in order up to its last step, a direct delete on the fenced node, which leaves the promoted one unaccounted for |
| StaleEntries.DirectDeletesLeaveEntries | keel-controlplane/src/http.rs:222-240 | direct deletes drop the placements and leave the address entries |
| StaleEntries.StaleEntryIsReused | keel-controlplane/src/worker.rs:309-318 | a run in which only two direct deletes part entries from placements, ending with two running replicas on one address |
| Cluster.ControlPlane.Scan | keel-controlplane/src/worker.rs:268-302 | one walk over the placements finds the present indices and busy nodes |
| Cluster.ControlPlane.Add | keel-controlplane/src/worker.rs:309-340 | plans one missing index on the working copy of the address table |
| Cluster.ControlPlane.ReconcileService | keel-controlplane/src/worker.rs:267-349 | plans one service, additions then removals |
| Cluster.ControlPlane.ReconcileServices | keel-controlplane/src/worker.rs:246-352 | computes the plan and changes no table |
| Cluster.ControlPlane.ExecuteReplicaActions | keel-controlplane/src/http.rs:478-520 | carries out the actions one by one, recording only confirmed ones |
| Cluster.ControlPlane.CheckAndExecuteFencing | keel-controlplane/src/http.rs:443-469 | discharges the answered fences of an alive node, in any table order |
| Cluster.ControlPlane.HandleRegister | keel-controlplane/src/http.rs:543-567 | the registration step |
| Cluster.ControlPlane.HandleHeartbeat | keel-controlplane/src/http.rs:569-597 | the heartbeat step: refresh, reconcile, fence |
| Cluster.ControlPlane.FindConflict | keel-controlplane/src/worker.rs:233-241 | the lowest replica name in use by someone else |
| Cluster.ControlPlane.HandleApplyService | keel-controlplane/src/http.rs:335-367 | the apply step, with its refusals |
| Cluster.ControlPlane.HandleDeleteService | keel-controlplane/src/http.rs:392-410 | the delete step; only reachable replicas are torn down |
| Cluster.ControlPlane.PrepareRepin | keel-controlplane/src/worker.rs:429-500 | the preparation, each refusal in its order |
| Cluster.ControlPlane.HandleForceRepin | keel-controlplane/src/http.rs:242-286 | the promotion step; the tables change only after the standby has taken the jail |
| Cluster.ControlPlane.RejectIfServiceOwned | keel-controlplane/src/http.rs:321-333 | a name is rejected exactly when a service owns it |
| Cluster.ControlPlane.HandlePutJail | keel-controlplane/src/http.rs:135-145 | the direct-apply step |
| Cluster.ControlPlane.HandleScheduledApply | keel-controlplane/src/http.rs:180-205 | the scheduled-apply step |
| Cluster.ControlPlane.HandleDeleteJail | keel-controlplane/src/http.rs:150-156 | the direct-delete step |
| Cluster.ControlPlane.HandleScheduledDelete | keel-controlplane/src/http.rs:222-240 | the scheduled-delete step |
| Backoff.ArmedDelay | keel-agentd/src/backoff.rs:39-48 | for any attempt times the armed delay is min(2^n, 300) seconds, n attempts after the last reset |
| Backoff.RetryAllowedIff | keel-agentd/src/backoff.rs:28-33 | after an attempt the next is allowed exactly once that delay has passed |
| Backoff.ArmedAtMost64 | keel-agentd/src/backoff.rs:28-48 | with gated attempts the armed delay never exceeds 64 s |
| Backoff.PauseInEveryEight | keel-agentd/src/backoff.rs:28-48 | any eight consecutive gated attempts contain a pause of at least 60 s |
| Backoff.BackoffState.MayRetry | keel-agentd/src/backoff.rs:28-33 | true without a cooldown or once it has passed |
| Backoff.BackoffState.RecordAttempt | keel-agentd/src/backoff.rs:39-48 | resets after 60 s, arms the current delay, doubles it up to the ceiling |
| Machine.OthersUntouched | keel-agentd/src/record.rs:11-38 | work on one record leaves every other record's jail, limits, root, mounts and network pair as they were |
| Machine.SaveKeepsCovered | keel-agentd/src/reconciler.rs:98-110 | saving with unchanged volumes, address and ordinal, or a fresh ordinal, leaves every resource covered by a record, every mount showing the volume declared there and every network pair connecting its record's jail |
| Machine.RemoveKeepsCovered | keel-agentd/src/reconciler.rs:152-155 | forgetting a record whose resources are gone uncovers nothing |
| Machine.TouchKeepsCovered | keel-agentd/src/reconciler.rs:254-279 | touching only a record's own resources and volumes keeps everything covered |
| Machine.NotBusyOnceUnmounted | keel-agentd/src/reconciler.rs:303-316 | once its jail and declared mounts are gone a root dataset is not busy |
| Machine.BusyIff | keel-agentd/src/reconciler.rs:303-316 | a root dataset is busy exactly while its jail exists or one of its declared mounts is there |
| Machine.UnderOneRoot | keel-agentd/src/record.rs:24-30 | a path under one jail's root is under no other's |
| Machine.TargetOfAbsolute | keel-agentd/src/reconciler.rs:266-268 | an absolute mount path lies under the jail's root as it stands |
| Host.OperatingSystem.Commit | keel-agentd/src/store.rs:32-49 | a record is replaced whole or not at all |
| Reconciler.NodeReconciler.constructor | keel-agentd/src/reconciler.rs:56-90 | start-up reloads the records and an ordinal above all of theirs |
| Reconciler.NodeReconciler.Apply | keel-agentd/src/reconciler.rs:92-111 | a spec is accepted exactly when it is well formed and, for a known name, keeps image, address and volumes; a refusal has no effect; ordinals and volumes of existing records stay; ordinals stay distinct and below the next |
| Reconciler.NodeReconciler.SetReplicateTo | keel-agentd/src/reconciler.rs:198-204 | changes only the replication address of a known record |
| Reconciler.NodeReconciler.Provision | keel-agentd/src/reconciler.rs:254-279 | touches only its own resources whichever step fails; done means fully provisioned; without failures it is done exactly when the base is there and the root is not; the command is not started before the mounts, limits and network are in place; a crash after the jail was created leaves it unmounted |
| Reconciler.NodeReconciler.Restart | keel-agentd/src/reconciler.rs:281-286 | done means the jail runs the record's command on its root, with the record's limits and its network pair attached; mounts and datasets are unchanged |
| Reconciler.NodeReconciler.RollbackProvision | keel-agentd/src/reconciler.rs:303-316 | if its own calls go well nothing of the jail is left, volumes excepted |
| Reconciler.NodeReconciler.TakeApart | keel-agentd/src/reconciler.rs:120-150 | detach, destroy, unmount, drop the root: a finished strict pass leaves nothing of the jail |
| Reconciler.NodeReconciler.Delete | keel-agentd/src/reconciler.rs:113-156 | success leaves nothing behind and no record, and comes whenever no call goes wrong; failure keeps the record; the back-off is forgotten with the jail; other jails and all volumes are untouched |
| Reconciler.NodeReconciler.DeleteVolume | keel-agentd/src/reconciler.rs:187-191 | destroys at most the named volume dataset; success means it was there and is gone, not-found that it was not |
| Reconciler.RestartedIff | keel-agentd/src/reconciler.rs:281-286 | a restart completes exactly the jails that had their root, mounts and volumes |
| Reconciler.NodeReconciler.Make | keel-agentd/src/reconciler.rs:517-523 | an absent jail is provisioned, the attempt recorded, and a failure rolled back to a clean slate |
| Reconciler.NodeReconciler.Revive | keel-agentd/src/reconciler.rs:524-539 | a running jail is not attempted; a stopped one is restarted with the mounts it has, unless its policy is never, in which case nothing happens |
| Reconciler.NodeReconciler.RecordAttempt | keel-agentd/src/reconciler.rs:519 | arms the back-off and keeps every attempt one the back-off allowed |
| Reconciler.NodeReconciler.CrashLoopRate | keel-agentd/src/backoff.rs:28-48 | for the attempts a running daemon has made on a jail: a minute's pause in any eight, and no cooldown beyond 64 s |
| Reconciler.NodeReconciler.ReconcileOne | keel-agentd/src/reconciler.rs:506-540 | attempts are gated by and arm the back-off; a finished attempt ends provisioned exactly when the jail was absent or furnished; a mendable jail without failures ends provisioned; a failed provision is rolled back to a clean slate |
| Reconciler.NodeReconciler.Reconcile | keel-agentd/src/reconciler.rs:355-375 | every jail is attended to: at most one attempt each; without failures each mendable jail ends provisioned and each absent one is attempted; running jails and stopped ones with policy never are not; half-made jails stay so; records, coverage and volumes are kept |
| Reconciler.StaysDown | keel-agentd/src/reconciler.rs:532-533 | over any passes, failures, crashes and restarts, a stopped jail with policy never stays stopped |
| HalfMadeJail.HalfMadeForGood | keel-agentd/src/reconciler.rs:524-539 | a crash right after a jail's creation, a restart of the daemon, and any later passes: the jail runs and its volume is never mounted |
| Reconciler.Live | keel-agentd/src/reconciler.rs:92-156 | over any operations, failures, crashes at any call and restarts, every resource stays covered by a record, every mount shows its declared volume, every network pair its own jail, and only dropping a volume destroys one |
| Header.HeaderRoundTripIff | keel-agentd/src/replication.rs:21-58 | a written header and payload read back as themselves exactly when the strings fit a u32 length |
| Header.StrIsSelfDelimiting | keel-agentd/src/replication.rs:27-34 | whatever reads as a string is that string's encoding followed by the rest |
| Header.ReadIsEncodingIff | keel-agentd/src/replication.rs:48-58 | the bytes read are the header's own encoding exactly when the flag byte is 0 or 1 |
| Header.WireLayout | keel-agentd/src/replication.rs:21-46 | the position and value of every byte: big-endian lengths, the two strings, the flag, the base |
| Header.HeaderCutShort | keel-agentd/src/replication.rs:27-58 | a header that breaks off anywhere reads as an unexpected end |
| Header.NotUtf8 | keel-agentd/src/replication.rs:27-34 | a whole string that is not UTF-8 reads as invalid data |
| Header.Stream.WriteHeader | keel-agentd/src/replication.rs:36-46 | appends exactly the header's encoding |
| Header.Stream.ReadHeader | keel-agentd/src/replication.rs:48-58 | consumes exactly the header, or reports the error |
| Replication.PatchDiff | keel-zfs/src/fake.rs:82-131 | applying a delta to its own base gives the snapshot it was made for |
| Replication.AcceptedFindsBase | keel-agentd/src/replication.rs:145-151 | an accepted stream finds its base on both sides with equal contents and yields the snapshot as taken |
| Replication.ReplicatedDataIsRight | keel-agentd/src/replication_loop.rs:28-94 | in any run, retargeted and failing at will, every standby snapshot holds what the volume held when it was taken |
| Replication.ReadyStandbyHoldsSnapshot | keel-agentd/src/http.rs:257-265 | a standby that answers ready holds such a snapshot under its last id |
| Replication.BringUp | keel-agentd/src/replication_loop.rs:44-94 | a standby without a snapshot has a full copy after at most two delivered ticks, whatever base the sender holds |
| Replication.SteadyState | keel-agentd/src/replication_loop.rs:55-66 | from then on every delivered tick is taken incrementally and the sender's snapshot count stays put |
| Replication.WedgedForever | keel-agentd/src/replication.rs:145-148 | a standby with a snapshot that is not the sender's base keeps the data it has through any later ticks, to whichever standbys |
| Replication.SyncsIff | keel-agentd/src/replication.rs:145-148 | some later ticks, retargeted at will, can bring a standby in step exactly when it has no snapshot or its last one is the sender's base |
| Replication.LostStreamWedges | keel-agentd/src/replication_loop.rs:83-94 | a stream believed sent but not received whole is never made good by any later ticks |
| Replication.StaysSyncedIff | keel-agentd/src/replication_loop.rs:55-74 | from a standby in step, a tick to it or to another leaves it in step, and able to be, exactly when belief and receipt agree and the base is not moved elsewhere |
| Replication.RunStaysSyncedIff | keel-agentd/src/replication_loop.rs:28-94 | so over any run |
| Replication.UnansweredChangesNoBase | keel-agentd/src/replication_loop.rs:71-73 | a failed connection leaves the sender's base and every standby alone |
| Replication.SnapshotCount | keel-agentd/src/replication_loop.rs:55-66 | a tick adds the snapshot it takes and removes one only when a completed send's base is pruned |
| Replication.ReplicaTargetRegistry.Ensure | keel-agentd/src/replication.rs:80-94 | creates the target on first contact, keeps its last snapshot otherwise |
| Replication.ReplicaTargetRegistry.RecordSnapshot | keel-agentd/src/replication.rs:96-111 | notes the last snapshot of a known target |
| Replication.ReplicaTargetRegistry.HandleConnection | keel-agentd/src/replication.rs:136-155 | proceeds exactly when the bases agree, records only whole streams, and touches no other replica |
| Replication.SenderLoop.SendOnce | keel-agentd/src/replication_loop.rs:83-94 | tells a rejected base from a failed and a finished send |
| Replication.SenderLoop.Tick | keel-agentd/src/replication_loop.rs:31-74 | snapshots, sends, prunes the old base after a send, forgets the base when it is rejected |
| Routes.GatewayOfHostPort | keel-agentd/src/registration.rs:174-178 | the gateway of `host:port` is the host |
| Routes.DiffRoutes | keel-agentd/src/registration.rs:11-39 | lists the alive peers without their route, in order, and the subnets of routes whose peer is gone |
| Routes.RouteTable.ReconcileRoutes | keel-agentd/src/registration.rs:147-191 | removals, then additions, each booked only if its command succeeds |
| Routes.CleanCall | keel-agentd/src/registration.rs:147-191 | what a call without failures leaves: added routes lead to their peer's host, the others keep their gateway, doomed ones are gone |
| Routes.ConvergesIff | keel-agentd/src/registration.rs:147-191 | one successful call installs exactly the alive peers' routes, kernel included, if and only if the table is clear |
| Routes.InstalledExactly | keel-agentd/src/registration.rs:11-39 | converged means a route for each reported peer that is alive and is not the node itself, and no other |
| Routes.TwoCallsConverge | keel-agentd/src/registration.rs:147-191 | with subnets fixed per id two successful calls always do |
| Routes.QuietWhenConverged | keel-agentd/src/registration.rs:11-39 | the next call then issues nothing |
| Routes.RunStaysInStep | keel-agentd/src/registration.rs:147-191 | over any run of reports with one subnet per id and any failing commands, kernel and installed map agree and routes are booked under the right id |
| Routes.RunIsWellLed | keel-agentd/src/registration.rs:147-191 | over any run every kernel route leads to the host some report gave for an alive peer with that subnet |
| Routes.TwoCleanCallsEndAnyRun | keel-agentd/src/registration.rs:147-191 | after any such run two successful calls install exactly the reported peers' routes, and a third issues nothing |
| Routes.OneCallCanFallShort | keel-agentd/src/registration.rs:159-163 | a failed removal and a subnet passed on make one call fall short |

## Left out

- Two rounds computed before either is executed: the source documents the race; here a round is computed and executed before the next.
- A forwarded call that fails but has taken effect on the node (a timeout after the jail was created): taken as having no effect.
- The body of a forwarded call (template, address, replication target): the model keeps which node holds which jail.
- Deleting services and plain-jail requests in the single-holder result: a stateless service deleted and re-created with volumes can leave an unaccounted holder.
- Reconciler.NodeReconciler.RollbackProvision: its clean slate assumes the cleanup calls themselves go well, as the code discards their results.
- Reconciler.NodeReconciler.Apply: ordinals are unbounded numbers; the u32 limit is not modelled.
- Reconciler.NodeReconciler.DeleteVolume: a volume mounted elsewhere through nullfs is not seen as busy.
- Mounting over an existing mount: the host refuses it here, so that a second mount would show as a failure.
- Paths are strings: two spellings of one directory (`..`, doubled slashes) count as different mount targets.
- Replication.SenderLoop.Tick: one loop's life; a restarted loop starts counting again from one.
- Loss of the receiver's own target records, and writes to a standby's dataset from outside.
- Headroom scores are reals: floating-point rounding and NaN.
- I/O errors while writing to a stream, and a worker that has stopped answering.
- Advertised replicas and the service proxy, ingress, certificates, DNS, pf, nginx: they configure other programs and keep no state that the modelled parts depend on.
- TLS, HTTP and YAML parsing, and the command line: input and output around the modelled requests.
- A gateway change of a peer that keeps its subnet: the code does not re-add the route.
