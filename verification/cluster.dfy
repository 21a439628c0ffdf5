/** The control plane as an object: the worker's commands and the request handlers that drive them. */
module Cluster {
  import opened Text
  import opened Subnet
  import opened Addresses
  import opened Scheduler
  import opened Registry
  import opened Services
  import opened Plan
  import opened Protocol

  /** The nodes' own jails, as forwarded calls change them; `ok` is whether the call was carried out. */
  class Fleet {
    var jails: set<(string, string)>

    constructor ()
      ensures jails == {}
    {
      jails := {};
    }

    method Put(node: string, name: string, ok: bool)
      modifies this
      ensures jails == if ok then old(jails) + {(node, name)} else old(jails)
    {
      if ok { jails := jails + {(node, name)}; }
    }

    method Delete(node: string, name: string, ok: bool)
      modifies this
      ensures jails == if ok then old(jails) - {(node, name)} else old(jails)
    {
      if ok { jails := jails - {(node, name)}; }
    }
  }

  class ControlPlane {
    const cfg: Config
    const registry: NodeRegistry
    const services: ServiceTable
    const used: UsedAddresses
    const fleet: Fleet
    var placements: map<string, string>
    var standbys: map<string, string>
    var fences: map<string, string>

    ghost function Tables(): State
      reads this, registry, services, used, fleet
    {
      State(registry.nodes, services.byName, placements, used.Tables(), standbys, fences, fleet.jails)
    }

    ghost predicate Valid()
      reads this, registry, services, used, fleet
    {
      && registry.cluster == cfg.cluster && registry.Valid()
      && services.cidr == cfg.service && services.Valid()
    }

    constructor (config: Config)
      ensures Valid() && cfg == config && Tables() == Empty
      ensures fresh(registry) && fresh(services) && fresh(used) && fresh(fleet)
    {
      cfg := config;
      registry := new NodeRegistry(config.cluster);
      services := new ServiceTable(config.service);
      used := new UsedAddresses();
      fleet := new Fleet();
      placements, standbys, fences := map[], map[], map[];
    }

    // ---------- computing a plan ----------

    /** Walks the placements in hash-map order and collects a service's present indices and busy nodes. */
    method Scan(s: string, now: nat) returns (present: set<nat>, busy: set<string>)
      requires s in services.byName
      ensures present == Present(Tables(), s, now)
      ensures busy == Hosting(s, placements)
    {
      present, busy := {}, {};
      var stateful := Stateful(services.byName[s]);
      var todo := placements.Keys;
      ghost var st := Tables();
      while todo != {}
        invariant todo <= placements.Keys && st == Tables()
        invariant present == set j | j in placements && j !in todo && ReplicaIndex(s, j).Some? && Counts(st, s, now, j) :: ReplicaIndex(s, j).value
        invariant busy == set j | j in placements && j !in todo && ReplicaIndex(s, j).Some? :: placements[j]
        decreases |todo|
      {
        hide ReplicaIndex, Alive, Resolve;
        var j :| j in todo;
        todo := todo - {j};
        var idx := ReplicaIndex(s, j);
        if idx.Some? {
          busy := busy + {placements[j]};
          if stateful || Resolve(registry.nodes, placements[j], now).Resolved? {
            present := present + {idx.value};
          }
        }
      }
    }

    /** One missing index: pick a node, an address and a standby, or skip it. */
    method Add(alive: seq<NodeResources>, s: string, index: nat, now: nat, actions: seq<Action>, working: UsedAddresses, busy: set<string>)
      returns (actions': seq<Action>, busy': set<string>)
      requires s in services.byName && working != used
      requires alive == AliveNodes(registry.nodes, now)
      modifies working
      ensures Work(actions', working.Tables(), busy') ==
              PlanAdd(Tables(), now, s, index, Work(actions, old(working.Tables()), busy))
    {
      hide Recorded, ReplicaName, FirstFreeAddress, PickNodeForService;
      actions', busy' := actions, busy;
      var node := PickNodeForService(alive, busy);
      if node.None? || node.value !in registry.nodes { return; }
      var address := FirstFreeAddress(registry.nodes[node.value].pod, node.value, Used(working.usedByNode, working.byJail));
      if address.None? || !Resolve(registry.nodes, node.value, now).Resolved? { return; }
      working.Record(ReplicaName(s, index), node.value, address.value);
      busy' := busy + {node.value};
      var standby := None;
      if Stateful(services.byName[s]) {
        standby := PickNodeForService(alive, busy');
        if standby.Some? && (standby.value == node.value || standby.value !in registry.nodes
                             || registry.nodes[standby.value].replicateAddr.None?) {
          standby := None;
        }
      }
      actions' := actions + [Schedule(s, index, node.value, address.value, standby)];
    }

    /** Plans one service: what is missing is added, what is in excess is torn down. */
    method ReconcileService(alive: seq<NodeResources>, s: string, now: nat, actions: seq<Action>, working: UsedAddresses)
      returns (actions': seq<Action>)
      requires s in services.byName && working != used
      requires alive == AliveNodes(registry.nodes, now)
      modifies working
      ensures forall busy0 :: var w := PlanService(Tables(), now, s, Work(actions, old(working.Tables()), busy0));
                              actions' == w.actions && working.Tables() == w.used
    {
      hide PlanAdd, Present, Hosting, ReplicaName, Recorded, Alive, Resolve;
      ghost var st := Tables();
      var present, busy := Scan(s, now);
      var (add, remove) := DiffReplicas(services.byName[s].desired, present);
      actions' := actions;
      ghost var w0 := Work(actions, working.Tables(), busy);
      for k := 0 to |add|
        invariant st == Tables()
        invariant Work(actions', working.Tables(), busy) == PlanAdds(st, now, s, add, w0, k)
      {
        actions', busy := Add(alive, s, add[k], now, actions', working, busy);
      }
      ghost var w1 := Work(actions', working.Tables(), busy);
      for k := 0 to |remove|
        invariant st == Tables() && working.Tables() == w1.used
        invariant Work(actions', w1.used, busy) == PlanRemoves(st, now, s, remove, w1, k)
      {
        var jail := ReplicaName(s, remove[k]);
        if jail in placements && Resolve(registry.nodes, placements[jail], now).Resolved? {
          actions' := actions' + [TearDown(s, remove[k], placements[jail])];
        }
      }
    }

    /** The plan of one pass. It only reads the tables: addresses are tried out on a copy. */
    method ReconcileServices(now: nat) returns (actions: seq<Action>)
      ensures Tables() == old(Tables())
      ensures actions == PlanOf(Tables(), now)
    {
      hide PlanService, AliveNodes;
      var alive := registry.ListAlive(now);
      var working := new UsedAddresses();
      working.usedByNode, working.byJail := used.usedByNode, used.byJail;
      var order := SortKeys(services.byName.Keys);
      EnumerationUnique(order, SortedKeys(services.byName.Keys), services.byName.Keys);
      ghost var st := Tables();
      actions := [];
      for k := 0 to |order|
        invariant st == Tables() && st == old(Tables())
        invariant var w := PlanServices(st, now, order, k); actions == w.actions && working.Tables() == w.used
      {
        assert order[k] in order;
        actions := ReconcileService(alive, order[k], now, actions, working);
      }
    }

    // ---------- executing it ----------

    /** Forwards each action and records its outcome only once the node has confirmed it. */
    method ExecuteReplicaActions(actions: seq<Action>, ok: nat -> bool)
      modifies this, used, fleet
      ensures Tables() == Exec(old(Tables()), actions, ok, |actions|)
    {
      hide Recorded, Released, ReplicaName;
      for k := 0 to |actions|
        invariant Tables() == Exec(old(Tables()), actions, ok, k)
      {
        var a := actions[k];
        var name := Name(a);
        match a
        case Schedule(_, _, node, address, standby) =>
          fleet.Put(node, name, ok(k));
          if ok(k) {
            placements := placements[name := node];
            used.Record(name, node, address);
            if standby.Some? { standbys := standbys[name := standby.value]; }
          }
        case TearDown(_, _, node) =>
          fleet.Delete(node, name, ok(k));
          if ok(k) {
            placements := placements - {name};
            used.Release(name);
          }
      }
    }

    method ReconcileAndExecute(now: nat, ok: nat -> bool)
      modifies this, used, fleet
      ensures Tables() == Reconciled(old(Tables()), now, ok)
    {
      hide PlanOf;
      var actions := ReconcileServices(now);
      ExecuteReplicaActions(actions, ok);
    }

    /** Forwards the forced deletes a heartbeating node is owed, in whatever order the table gives them. */
    method CheckAndExecuteFencing(node: string, now: nat, done: set<string>)
      modifies this, fleet
      ensures Tables() == Fenced(old(Tables()), node, now, done)
    {
      var owed := set r | r in fences && fences[r] == node;
      ghost var st := Tables();
      if owed == {} {
        assert Owed(st, node) * done == {};
        assert st.fences - {} == st.fences;
        return;
      }
      if !Resolve(registry.nodes, node, now).Resolved? { return; }
      var todo := owed;
      while todo != {}
        invariant todo <= owed
        invariant Tables() == st.(fences := fences, jails := fleet.jails)
        invariant fences == st.fences - ((owed - todo) * done)
        invariant fleet.jails == st.jails - (set r | r in (owed - todo) * done :: (node, r))
        decreases |todo|
      {
        hide Alive, Resolve;
        var r :| r in todo;
        todo := todo - {r};
        fleet.Delete(node, r, r in done);
        if r in done { fences := fences - {r}; }
      }
    }

    // ---------- request handlers ----------

    method HandleRegister(id: string, addr: string, replicateAddr: Option<string>, cpu: real, memory: nat, now: nat)
      returns (reply: RegisterReply)
      requires Valid()
      modifies registry
      ensures Valid()
      ensures Tables() == Next(cfg, old(Tables()), Register(id, addr, replicateAddr, cpu, memory, now))
    {
      hide Registered;
      reply := registry.Register(id, addr, replicateAddr, cpu, memory, now);
    }

    /** A known node's heartbeat refreshes it, then reconciles every service, then discharges the node's fences. */
    method HandleHeartbeat(id: string, cpu: real, memory: nat, running: map<string, bool>, now: nat, ok: nat -> bool, done: set<string>)
      returns (known: bool)
      requires Valid()
      modifies this, registry, used, fleet
      ensures Valid()
      ensures known <==> id in old(registry.nodes)
      ensures Tables() == Next(cfg, old(Tables()), Heartbeat(id, cpu, memory, running, now, ok, done))
    {
      hide Reconciled, Fenced, ValidNodes;
      known := registry.Heartbeat(id, cpu, memory, running, now);
      if known {
        ReconcileAndExecute(now, ok);
        CheckAndExecuteFencing(id, now, done);
      }
    }

    /** The name check over every index below the desired count. */
    method FindConflict(name: string, desired: nat) returns (c: Option<(string, Owner)>)
      ensures c == Conflict(Tables(), name, desired, 0)
    {
      hide ReplicaName, OwnerOf;
      for i := 0 to desired
        invariant Conflict(Tables(), name, desired, 0) == Conflict(Tables(), name, desired, i)
      {
        var candidate := ReplicaName(name, i);
        var owner := FindOwner(candidate, placements, services.byName);
        if owner.Some? && owner.value != Service(name) {
          return Some((candidate, owner.value));
        }
      }
      c := None;
    }

    method HandleApplyService(name: string, desired: u32, template: Template, port: nat, now: nat, ok: nat -> bool)
      returns (r: ApplyResult)
      requires Valid()
      modifies this, services, used, fleet
      ensures Valid()
      ensures r == ServiceApplied(old(Tables()), cfg.service, name, desired, template, port)
      ensures Tables() == Next(cfg, old(Tables()), ApplyService(name, desired, template, port, now, ok))
    {
      hide Reconciled, Conflict, ApplyTo, ValidServices, ValidNodes;
      var c := FindConflict(name, desired);
      if c.Some? {
        return Refused(NameConflict(c.value.0, c.value.1));
      }
      r := services.Apply(name, desired, template, port);
      if r.Applied? { ReconcileAndExecute(now, ok); }
    }

    /** Tears down what can be reached; `order` is the order in which the placements were met. */
    method HandleDeleteService(name: string, now: nat, ok: nat -> bool) returns (known: bool, order: seq<string>)
      requires Valid()
      modifies this, services, used, fleet
      ensures Valid()
      ensures known <==> name in old(services.byName)
      ensures known ==> forall j :: j in order <==> j in old(placements)
      ensures Tables() == Next(cfg, old(Tables()), DeleteService(name, now, order, ok))
    {
      hide ReplicaIndex, Alive, Resolve, ValidNodes, ValidServices, Exec;
      order := [];
      known := name in services.byName;
      if !known { return; }
      var actions := [];
      var todo := placements.Keys;
      ghost var st := Tables();
      while todo != {}
        invariant todo <= placements.Keys && st == Tables()
        invariant forall j :: j in order <==> j in placements && j !in todo
        invariant actions == TearDowns(st, name, now, order)
        decreases |todo|
      {
        var j :| j in todo;
        todo := todo - {j};
        assert (order + [j])[..|order|] == order;
        order := order + [j];
        if ReplicaIndex(name, j).Some? && Resolve(registry.nodes, placements[j], now).Resolved? {
          actions := actions + [TearDown(name, ReplicaIndex(name, j).value, placements[j])];
        }
      }
      services.Remove(name);
      ExecuteReplicaActions(actions, ok);
    }

    method PrepareRepin(name: string, now: nat) returns (prep: RepinPrep)
      requires Valid()
      ensures prep == PrepareForceRepin(Tables(), name, now)
    {
      hide PickNodeForService, AliveNodes, FirstFreeAddress, OwnerOf, Alive, Resolve, ValidNodes, ValidServices;
      if name !in placements { return NotPrepared(NotPlaced); }
      if name !in standbys { return NotPrepared(NotStateful); }
      var primary, standby := placements[name], standbys[name];
      if Resolve(registry.nodes, primary, now).Resolved? { return NotPrepared(PrimaryStillAlive); }
      if !Resolve(registry.nodes, standby, now).Resolved? { return NotPrepared(StandbyUnresolvable); }
      var owner := FindOwner(name, placements, services.byName);
      OwnerIsListed(name, placements, services.byName);
      if !owner.value.Service? { return NotPrepared(NotStateful); }
      var alive := registry.ListAlive(now);
      var backup := PickNodeForService(alive, {primary, standby});
      if backup.None? || backup.value == primary || backup.value == standby { return NotPrepared(NoFreshStandby); }
      if backup.value !in registry.nodes || registry.nodes[backup.value].replicateAddr.None? { return NotPrepared(NoFreshStandby); }
      assert standby in registry.nodes by { AliveIsKnown(registry.nodes, standby, now); }
      var address := FirstFreeAddress(registry.nodes[standby].pod, standby, Used(used.usedByNode, used.byJail));
      if address.None? { return NotPrepared(NoFreeAddress); }
      prep := Prepared(primary, standby, backup.value, address.value);
    }

    /** Promotes a ready standby; the records change only after the standby has taken the jail. */
    method HandleForceRepin(name: string, now: nat, ready: bool, ok: bool) returns (prep: RepinPrep)
      requires Valid()
      modifies this, used, fleet
      ensures Valid()
      ensures prep == PrepareForceRepin(old(Tables()), name, now)
      ensures Tables() == Next(cfg, old(Tables()), ForceRepin(name, now, ready, ok))
    {
      hide PrepareForceRepin, Recorded, ValidNodes, ValidServices;
      prep := PrepareRepin(name, now);
      if prep.NotPrepared? || !ready { return; }
      fleet.Put(prep.standby, name, ok);
      if ok {
        placements := placements[name := prep.standby];
        used.Record(name, prep.standby, prep.address);
        standbys := standbys[name := prep.backup];
        fences := fences[name := prep.primary];
      }
    }

    /** Whether a plain-jail request must be turned away because a service owns the name. */
    method RejectIfServiceOwned(name: string) returns (reject: bool)
      ensures reject <==> ServiceOwned(Tables(), name)
    {
      hide OwnerOf;
      var owner := FindOwner(name, placements, services.byName);
      reject := owner.Some? && owner.value.Service?;
    }

    method HandlePutJail(node: string, name: string, now: nat, ok: bool)
      requires Valid()
      modifies this, fleet
      ensures Valid() && Tables() == Next(cfg, old(Tables()), PutJail(node, name, now, ok))
    {
      hide ServiceOwned, Alive, Resolve, ValidNodes, ValidServices;
      var reject := RejectIfServiceOwned(name);
      if reject || !Resolve(registry.nodes, node, now).Resolved? { return; }
      fleet.Put(node, name, ok);
      if ok { placements := placements[name := node]; }
    }

    method HandleScheduledApply(name: string, now: nat, ok: bool)
      requires Valid()
      modifies this, fleet
      ensures Valid() && Tables() == Next(cfg, old(Tables()), ScheduleJail(name, now, ok))
    {
      hide ServiceOwned, Alive, Resolve, AliveNodes, PickNode, ValidNodes, ValidServices;
      var reject := RejectIfServiceOwned(name);
      if reject { return; }
      var node;
      if name in placements {
        node := placements[name];
      } else {
        var alive := registry.ListAlive(now);
        var pick := PickNode(alive);
        if pick.None? { return; }
        node := pick.value;
      }
      if !Resolve(registry.nodes, node, now).Resolved? { return; }
      fleet.Put(node, name, ok);
      if ok { placements := placements[name := node]; }
    }

    method HandleDeleteJail(node: string, name: string, now: nat, ok: bool)
      requires Valid()
      modifies this, fleet
      ensures Valid() && Tables() == Next(cfg, old(Tables()), DeleteJail(node, name, now, ok))
    {
      hide Alive, Resolve, ValidNodes, ValidServices;
      if !Resolve(registry.nodes, node, now).Resolved? { return; }
      fleet.Delete(node, name, ok);
      if ok { placements := placements - {name}; }
    }

    method HandleScheduledDelete(name: string, now: nat, ok: bool)
      requires Valid()
      modifies this, fleet
      ensures Valid() && Tables() == Next(cfg, old(Tables()), DeleteScheduledJail(name, now, ok))
    {
      hide Alive, Resolve, ValidNodes, ValidServices;
      if name !in placements || !Resolve(registry.nodes, placements[name], now).Resolved? { return; }
      var node := placements[name];
      fleet.Delete(node, name, ok);
      if ok { placements := placements - {name}; }
    }
  }
}
