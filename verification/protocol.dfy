/** The control plane's request handlers as steps on its state, and runs of them. */
module Protocol {
  import opened Text
  import opened Subnet
  import opened Addresses
  import opened Scheduler
  import opened Registry
  import opened Services
  import opened Plan

  datatype Prefixes = Prefixes(cluster: Cidr, service: Cidr)

  /** The two prefixes a control plane is started with. */
  type Config = c: Prefixes | c.cluster.len <= POD_PREFIX_LEN && c.service.len > 0
    witness Prefixes(Prefix(0, 0), Prefix(0, 1))

  const Empty := State(map[], map[], map[], Used(map[], map[]), map[], map[], {})

  // ---------- reconcile and fencing ----------

  ghost function Reconciled(st: State, now: nat, ok: nat -> bool): State {
    var acts := PlanOf(st, now);
    Exec(st, acts, ok, |acts|)
  }

  function Owed(st: State, node: string): set<string> {
    set r | r in st.fences && st.fences[r] == node
  }

  /** Forced deletes on a heartbeating node; `done` are the replicas whose delete was answered with success or 404. */
  function Fenced(st: State, node: string, now: nat, done: set<string>): State {
    if !Alive(st.nodes, node, now) then st
    else
      var gone := Owed(st, node) * done;
      st.(fences := st.fences - gone, jails := st.jails - (set r | r in gone :: (node, r)))
  }

  ghost function HeartbeatStep(st: State, id: string, cpu: real, memory: nat, running: map<string, bool>, now: nat,
                               ok: nat -> bool, done: set<string>): State
  {
    if id !in st.nodes then st
    else Fenced(Reconciled(st.(nodes := Beaten(st.nodes, id, cpu, memory, running, now)), now, ok), id, now, done)
  }

  // ---------- services ----------

  /** The first replica name below `desired` that someone else owns, from index `i` on. */
  ghost function Conflict(st: State, name: string, desired: nat, i: nat): Option<(string, Owner)>
    requires i <= desired
    decreases desired - i
  {
    if i == desired then None
    else
      var owner := OwnerOf(ReplicaName(name, i), st.placements, st.services);
      if owner.Some? && owner.value != Service(name) then Some((ReplicaName(name, i), owner.value))
      else Conflict(st, name, desired, i + 1)
  }

  /** A service may be created or resized exactly when no replica name below its desired count is in use by anyone else. */
  lemma {:induction false} ConflictIff(st: State, name: string, desired: u32, i: nat)
    requires i <= desired
    ensures Conflict(st, name, desired, i).None? <==>
            (name in st.services || forall k | i <= k < desired :: ReplicaName(name, k) !in st.placements)
    decreases desired - i
  {
    hide ReplicaName, ReplicaIndex, OwnerOf;
    if i < desired {
      ConflictIff(st, name, desired, i + 1);
      var r := ReplicaName(name, i);
      ReplicaIndexIff(name, r, i);
      if r in st.placements {
        if name in st.services { OwnerIs(r, st.placements, st.services, name); } else { OwnerIsListed(r, st.placements, st.services); }
      } else {
        NotPlacedNotOwned(r, st.placements, st.services);
      }
    }
  }

  lemma OwnerIsListed(jail: string, placements: map<string, string>, services: ServiceMap)
    requires jail in placements
    ensures var o := OwnerOf(jail, placements, services);
            o.Some? && (o.value.Service? ==> o.value.name in services)
  {
  }

  lemma NotPlacedNotOwned(jail: string, placements: map<string, string>, services: ServiceMap)
    requires jail !in placements
    ensures OwnerOf(jail, placements, services).None?
  {
  }

  ghost function ServiceApplied(st: State, cidr: Cidr, name: string, desired: u32, template: Template, port: nat): ApplyResult
    requires cidr.len > 0
  {
    match Conflict(st, name, desired, 0)
    case Some(c) => Refused(NameConflict(c.0, c.1))
    case None => ApplyTo(st.services, cidr, name, desired, template, port)
  }

  ghost function ApplyServiceStep(st: State, cfg: Config, name: string, desired: u32, template: Template, port: nat,
                                  now: nat, ok: nat -> bool): State
  {
    match ServiceApplied(st, cfg.service, name, desired, template, port)
    case Refused(_) => st
    case Applied(services) => Reconciled(st.(services := services), now, ok)
  }

  /** Tear-downs for the placed replicas of a service whose node is alive, in the order the table is walked. */
  function TearDowns(st: State, name: string, now: nat, order: seq<string>): seq<Action> {
    if order == [] then []
    else
      var rest := TearDowns(st, name, now, order[..|order| - 1]);
      var j := order[|order| - 1];
      if j in st.placements && ReplicaIndex(name, j).Some? && Alive(st.nodes, st.placements[j], now)
      then rest + [TearDown(name, ReplicaIndex(name, j).value, st.placements[j])]
      else rest
  }

  function DeleteServiceStep(st: State, name: string, now: nat, order: seq<string>, ok: nat -> bool): State {
    if name !in st.services then st
    else
      var acts := TearDowns(st, name, now, order);
      Exec(st.(services := st.services - {name}), acts, ok, |acts|)
  }

  // ---------- force-repin ----------

  datatype RepinError =
    | NotPlaced | NotStateful | PrimaryStillAlive | StandbyUnresolvable | NoFreshStandby | NoFreeAddress

  datatype RepinPrep =
    | Prepared(primary: string, standby: string, backup: string, address: u32)
    | NotPrepared(error: RepinError)

  ghost function PrepareForceRepin(st: State, name: string, now: nat): RepinPrep {
    if name !in st.placements then NotPrepared(NotPlaced)
    else if name !in st.standbys then NotPrepared(NotStateful)
    else
      var primary, standby := st.placements[name], st.standbys[name];
      if Alive(st.nodes, primary, now) then NotPrepared(PrimaryStillAlive)
      else if !Alive(st.nodes, standby, now) then NotPrepared(StandbyUnresolvable)
      else if !OwnerOf(name, st.placements, st.services).value.Service? then NotPrepared(NotStateful)
      else
        var backup := Pick(st, now, {primary, standby});
        if backup.None? || backup.value == primary || backup.value == standby then NotPrepared(NoFreshStandby)
        else if backup.value !in st.nodes || st.nodes[backup.value].replicateAddr.None? then NotPrepared(NoFreshStandby)
        else
          match FirstFreeAddress(st.nodes[standby].pod, standby, st.used)
          case None => NotPrepared(NoFreeAddress)
          case Some(address) => Prepared(primary, standby, backup.value, address)
  }

  /** Promotes the standby: `ready` is its answer to the readiness probe, `ok` the outcome of the provisioning call. */
  ghost function ForceRepinStep(st: State, name: string, now: nat, ready: bool, ok: bool): State {
    var prep := PrepareForceRepin(st, name, now);
    if prep.NotPrepared? || !ready || !ok then st
    else
      st.(placements := st.placements[name := prep.standby],
          used := Recorded(st.used, name, prep.standby, prep.address),
          standbys := st.standbys[name := prep.backup],
          fences := st.fences[name := prep.primary],
          jails := st.jails + {(prep.standby, name)})
  }

  // ---------- plain jails ----------

  ghost predicate ServiceOwned(st: State, name: string) {
    var o := OwnerOf(name, st.placements, st.services);
    o.Some? && o.value.Service?
  }

  function Placed(st: State, name: string, node: string): State {
    st.(placements := st.placements[name := node], jails := st.jails + {(node, name)})
  }

  function Unplaced(st: State, name: string, node: string): State {
    st.(placements := st.placements - {name}, jails := st.jails - {(node, name)})
  }

  /** `PUT /nodes/<node>/jails/<name>` */
  ghost function PutJailStep(st: State, node: string, name: string, now: nat, ok: bool): State {
    if ServiceOwned(st, name) || !Alive(st.nodes, node, now) || !ok then st else Placed(st, name, node)
  }

  /** `PUT /jails/<name>`: the placed node if there is one, otherwise the node with most headroom. */
  ghost function ScheduleJailStep(st: State, name: string, now: nat, ok: bool): State {
    if ServiceOwned(st, name) || !ok then st
    else if name in st.placements then
      if Alive(st.nodes, st.placements[name], now) then Placed(st, name, st.placements[name]) else st
    else
      match PickNode(AliveNodes(st.nodes, now))
      case None => st
      case Some(node) => if Alive(st.nodes, node, now) then Placed(st, name, node) else st
  }

  /** `DELETE /nodes/<node>/jails/<name>`: drops the placement wherever it points. */
  function DeleteJailStep(st: State, node: string, name: string, now: nat, ok: bool): State {
    if !Alive(st.nodes, node, now) || !ok then st else Unplaced(st, name, node)
  }

  /** `DELETE /jails/<name>` */
  function DeleteScheduledJailStep(st: State, name: string, now: nat, ok: bool): State {
    if name !in st.placements || !Alive(st.nodes, st.placements[name], now) || !ok then st
    else Unplaced(st, name, st.placements[name])
  }

  // ---------- runs ----------

  datatype Step =
    | Register(id: string, addr: string, replicateAddr: Option<string>, cpu: real, memory: nat, now: nat)
    | Heartbeat(id: string, cpu: real, memory: nat, running: map<string, bool>, now: nat, calls: nat -> bool, done: set<string>)
    | ApplyService(name: string, desired: u32, template: Template, port: nat, now: nat, calls: nat -> bool)
    | DeleteService(name: string, now: nat, order: seq<string>, calls: nat -> bool)
    | ForceRepin(name: string, now: nat, ready: bool, ok: bool)
    | PutJail(node: string, name: string, now: nat, ok: bool)
    | ScheduleJail(name: string, now: nat, ok: bool)
    | DeleteJail(node: string, name: string, now: nat, ok: bool)
    | DeleteScheduledJail(name: string, now: nat, ok: bool)

  ghost function Next(cfg: Config, st: State, step: Step): State {
    match step
    case Register(id, addr, replicateAddr, cpu, memory, now) =>
      st.(nodes := Registered(st.nodes, cfg.cluster, id, addr, replicateAddr, cpu, memory, now))
    case Heartbeat(id, cpu, memory, running, now, calls, done) => HeartbeatStep(st, id, cpu, memory, running, now, calls, done)
    case ApplyService(name, desired, template, port, now, calls) => ApplyServiceStep(st, cfg, name, desired, template, port, now, calls)
    case DeleteService(name, now, order, calls) => DeleteServiceStep(st, name, now, order, calls)
    case ForceRepin(name, now, ready, ok) => ForceRepinStep(st, name, now, ready, ok)
    case PutJail(node, name, now, ok) => PutJailStep(st, node, name, now, ok)
    case ScheduleJail(name, now, ok) => ScheduleJailStep(st, name, now, ok)
    case DeleteJail(node, name, now, ok) => DeleteJailStep(st, node, name, now, ok)
    case DeleteScheduledJail(name, now, ok) => DeleteScheduledJailStep(st, name, now, ok)
  }

  /** The state after the first `k` steps of a run. */
  ghost function After(cfg: Config, st: State, run: seq<Step>, k: nat): State
    requires k <= |run|
  {
    if k == 0 then st else Next(cfg, After(cfg, st, run, k - 1), run[k - 1])
  }

  /** Old primary, promoted standby and fresh standby are three different nodes; only the old primary is unreachable. */
  lemma RepinUsesThreeNodes(st: State, name: string, now: nat)
    ensures var p := PrepareForceRepin(st, name, now);
            p.Prepared? ==>
              && p.primary != p.standby && p.standby != p.backup && p.primary != p.backup
              && !Alive(st.nodes, p.primary, now) && Alive(st.nodes, p.standby, now) && Alive(st.nodes, p.backup, now)
              && name in st.placements && st.placements[name] == p.primary
              && name in st.standbys && st.standbys[name] == p.standby
              && p.address !in Taken(st.used, p.standby) && Assignable(st.nodes[p.standby].pod, p.address)
              && p.backup in st.nodes && st.nodes[p.backup].replicateAddr.Some?
              && exists s :: Owns(st.services, s, name)
  {
    hide Pick;
    var p := PrepareForceRepin(st, name, now);
    if p.Prepared? { PickAlive(st, now, {p.primary, p.standby}); }
  }

  /**
    * A promotion can be prepared exactly for a placed replica of a service, with a standby on record, whose primary is dead
    * and whose standby is alive and has a free address, when the best third node can take replication.
    */
  lemma PreparedIff(st: State, name: string, now: nat)
    ensures PrepareForceRepin(st, name, now).Prepared? <==>
            && name in st.placements && name in st.standbys
            && (exists s :: s in st.services && ReplicaIndex(s, name).Some?)
            && var primary, standby := st.placements[name], st.standbys[name];
            && !Alive(st.nodes, primary, now) && Alive(st.nodes, standby, now)
            && (exists b :: IsChoice(st, now, {primary, standby}, b) && b != primary && b != standby && st.nodes[b].replicateAddr.Some?)
            && (exists a: u32 :: Assignable(st.nodes[standby].pod, a) && a !in Taken(st.used, standby))
  {
    hide Pick, IsChoice, ReplicaIndex, Assignable, FirstFreeAddress, Alive;
    if name in st.placements && name in st.standbys {
      var busy := {st.placements[name], st.standbys[name]};
      PickIsChoice(st, now, busy);
      forall a, b | IsChoice(st, now, busy, a) && IsChoice(st, now, busy, b) ensures a == b { OneChoice(st, now, busy, a, b); }
      forall b | IsChoice(st, now, busy, b) ensures b in st.nodes && Alive(st.nodes, b, now) { ChoiceIsAlive(st, now, busy, b); }
      assert Alive(st.nodes, st.standbys[name], now) ==> st.standbys[name] in st.nodes by {
        if Alive(st.nodes, st.standbys[name], now) { AliveIsKnown(st.nodes, st.standbys[name], now); }
      }
      assert (exists s :: Owns(st.services, s, name)) <==> exists s :: s in st.services && ReplicaIndex(s, name).Some? by {
        assert forall s :: Owns(st.services, s, name) <==> s in st.services && ReplicaIndex(s, name).Some?;
      }
    }
  }

  /** Why a promotion is refused; a replica without a standby is told so whether or not its node is alive. */
  lemma RefusedFor(st: State, name: string, now: nat)
    requires PrepareForceRepin(st, name, now).NotPrepared?
    ensures var e := PrepareForceRepin(st, name, now).error;
            && (e.NotPlaced? <==> name !in st.placements)
            && (name in st.placements && name !in st.standbys ==> e.NotStateful?)
            && (name in st.placements && name in st.standbys ==>
                  var up, ready := Alive(st.nodes, st.placements[name], now), Alive(st.nodes, st.standbys[name], now);
                  var owned := exists s :: s in st.services && ReplicaIndex(s, name).Some?;
                  && (e.PrimaryStillAlive? <==> up)
                  && (e.StandbyUnresolvable? <==> !up && !ready)
                  && (e.NotStateful? <==> !up && ready && !owned)
                  && (e.NoFreeAddress? ==> forall a: u32 | Assignable(st.nodes[st.standbys[name]].pod, a) :: a in Taken(st.used, st.standbys[name])))
  {
    hide Pick, ReplicaIndex, Assignable, FirstFreeAddress, Alive;
    if name in st.placements && name in st.standbys {
      if Alive(st.nodes, st.standbys[name], now) { AliveIsKnown(st.nodes, st.standbys[name], now); }
      assert forall s :: Owns(st.services, s, name) <==> s in st.services && ReplicaIndex(s, name).Some?;
    }
  }

  lemma ChoiceIsAlive(st: State, now: nat, busy: set<string>, b: string)
    requires IsChoice(st, now, busy, b)
    ensures Alive(st.nodes, b, now) && b in st.nodes
  {
  }

  /** After a promotion the placement, the new standby and the node owed a fence are three different nodes. */
  lemma RepinLeavesThreeNodes(st: State, name: string, now: nat)
    requires PrepareForceRepin(st, name, now).Prepared?
    ensures var after := ForceRepinStep(st, name, now, true, true);
            && name in after.placements && name in after.standbys && name in after.fences
            && after.fences[name] == st.placements[name] && after.placements[name] == st.standbys[name]
            && after.placements[name] != after.standbys[name] && after.standbys[name] != after.fences[name]
            && after.placements[name] != after.fences[name]
            && Alive(st.nodes, after.placements[name], now) && Alive(st.nodes, after.standbys[name], now)
            && st.nodes[after.standbys[name]].replicateAddr.Some?
  {
    hide PrepareForceRepin, Recorded, Alive, Assignable;
    RepinUsesThreeNodes(st, name, now);
  }

  /** The promoted node now holds the jail, and no other replica's entries have moved. */
  lemma RepinSparesOthers(st: State, name: string, now: nat, r: string, n: string)
    requires PrepareForceRepin(st, name, now).Prepared?
    ensures var after := ForceRepinStep(st, name, now, true, true);
            && after.nodes == st.nodes && after.services == st.services
            && ((n, r) in after.jails <==> (n, r) in st.jails || (r == name && name in st.standbys && n == st.standbys[name]))
            && (r != name ==>
                  && (r in after.placements <==> r in st.placements) && (r in after.placements ==> after.placements[r] == st.placements[r])
                  && (r in after.standbys <==> r in st.standbys) && (r in after.standbys ==> after.standbys[r] == st.standbys[r])
                  && (r in after.fences <==> r in st.fences) && (r in after.fences ==> after.fences[r] == st.fences[r])
                  && (r in after.used.byJail <==> r in st.used.byJail)
                  && (r in after.used.byJail ==> after.used.byJail[r] == st.used.byJail[r]))
  {
    hide PrepareForceRepin, Recorded, Alive, Assignable;
    RepinUsesThreeNodes(st, name, now);
    var p := PrepareForceRepin(st, name, now);
    RecordedEntries(st.used, name, p.standby, p.address);
  }
}
