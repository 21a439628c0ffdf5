/** Over whole runs, no two replicas are recorded with one IP address and no two services with one virtual address. */
module AddressRuns {
  import opened Text
  import opened Subnet
  import opened Addresses
  import opened Registry
  import opened Services
  import opened Plan
  import opened Convergence
  import opened PlanAddresses
  import opened Protocol
  import opened SingleHolder
  import opened Pinning

  /** Every recorded address is an assignable one of its node's block. */
  ghost predicate InBlocks(nodes: Nodes, u: Used) {
    forall j | j in u.byJail :: u.byJail[j].0 in nodes && Assignable(nodes[u.byJail[j].0].pod, u.byJail[j].1)
  }

  ghost predicate AddressesOk(cfg: Config, st: State) {
    ValidNodes(st.nodes, cfg.cluster) && Consistent(st.used) && Anchored(st) && InBlocks(st.nodes, st.used)
  }

  lemma AssignableIsInside(c: Cidr, a: int)
    requires Assignable(c, a)
    ensures Contains(c, a)
  {
  }

  /** Blocks are disjoint and each node's entries are exclusive, so an address identifies its replica. */
  lemma AddressIdentifiesReplica(cfg: Config, st: State, j: string, k: string)
    requires AddressesOk(cfg, st) && j in st.used.byJail && k in st.used.byJail
    requires st.used.byJail[j].1 == st.used.byJail[k].1
    ensures j == k
  {
    hide Contains, Assignable, ValidNodes;
    var a, b, x := st.used.byJail[j].0, st.used.byJail[k].0, st.used.byJail[j].1;
    AssignableIsInside(st.nodes[a].pod, x);
    AssignableIsInside(st.nodes[b].pod, x);
    BlocksSeparateNodes(st.nodes, cfg.cluster, a, b, x);
  }

  // ---------- steps ----------

  lemma ActionAnchored(st: State, a: Action, ok: bool)
    requires Anchored(st)
    ensures Anchored(ExecAction(st, a, ok))
  {
    hide Name;
    if ok && a.Schedule? { RecordedEntries(st.used, Name(a), a.node, a.address); }
  }

  lemma ActionInBlocks(nodes: Nodes, st: State, a: Action, ok: bool)
    requires InBlocks(nodes, st.used)
    requires a.Schedule? ==> a.node in nodes && Assignable(nodes[a.node].pod, a.address)
    ensures InBlocks(nodes, ExecAction(st, a, ok).used)
  {
    hide Name, Assignable;
    if ok && a.Schedule? { RecordedEntries(st.used, Name(a), a.node, a.address); }
  }

  lemma {:induction false} ExecFollows(st: State, acts: seq<Action>, ok: nat -> bool, k: nat)
    requires k <= |acts| && Anchored(st) && InBlocks(st.nodes, st.used)
    requires forall i | 0 <= i < |acts| && acts[i].Schedule? ::
               acts[i].node in st.nodes && Assignable(st.nodes[acts[i].node].pod, acts[i].address)
    ensures Anchored(Exec(st, acts, ok, k)) && InBlocks(st.nodes, Exec(st, acts, ok, k).used)
  {
    hide Anchored, InBlocks, ExecAction, Assignable;
    if k > 0 {
      ExecFollows(st, acts, ok, k - 1);
      ActionAnchored(Exec(st, acts, ok, k - 1), acts[k - 1], ok(k - 1));
      ActionInBlocks(st.nodes, Exec(st, acts, ok, k - 1), acts[k - 1], ok(k - 1));
    }
  }

  lemma ReconciledAddresses(cfg: Config, st: State, now: nat, ok: nat -> bool)
    requires AddressesOk(cfg, st)
    ensures AddressesOk(cfg, Reconciled(st, now, ok))
  {
    hide PlanOf, Consistent, Anchored, InBlocks, ValidNodes, NoReuse, DistinctNames, Assignable;
    var acts := PlanOf(st, now);
    PlanIsFresh(st, now);
    AnchoredPlansAreSafe(st, now);
    ExecSourced(st, acts, ok, |acts|);
    ExecFollows(st, acts, ok, |acts|);
    ExecKeeps(st, acts, ok, |acts|);
  }

  lemma {:induction false} RemovalsConsistent(st: State, acts: seq<Action>, ok: nat -> bool, k: nat)
    requires k <= |acts| && Consistent(st.used) && forall i | 0 <= i < |acts| :: acts[i].TearDown?
    ensures Consistent(Exec(st, acts, ok, k).used)
  {
    hide Consistent, Released, Name;
    if k > 0 {
      RemovalsConsistent(st, acts, ok, k - 1);
      ReleaseConsistent(Exec(st, acts, ok, k - 1).used, Name(acts[k - 1]));
    }
  }

  lemma NodesAddresses(cfg: Config, st: State, nodes: Nodes)
    requires AddressesOk(cfg, st) && ValidNodes(nodes, cfg.cluster) && KeepsBlocks(st.nodes, nodes)
    ensures AddressesOk(cfg, st.(nodes := nodes))
  {
    hide Consistent, ValidNodes, Assignable;
  }

  lemma RepinAddresses(cfg: Config, st: State, name: string, now: nat, ready: bool, ok: bool)
    requires AddressesOk(cfg, st)
    ensures AddressesOk(cfg, ForceRepinStep(st, name, now, ready, ok))
  {
    hide PrepareForceRepin, Consistent, ValidNodes, Assignable, Recorded, Taken, Alive;
    RepinUsesThreeNodes(st, name, now);
    var p := PrepareForceRepin(st, name, now);
    if p.Prepared? && ready && ok {
      RecordedEntries(st.used, name, p.standby, p.address);
      NotTaken(st.used, p.standby, p.address);
      RecordConsistent(st.used, name, p.standby, p.address);
      assert p.standby in st.nodes by { AliveIsKnown(st.nodes, p.standby, now); }
    }
  }

  /** The handlers that work through services, not on plain jails. */
  predicate ServiceStep(step: Step) {
    step.Register? || step.Heartbeat? || step.ApplyService? || step.DeleteService? || step.ForceRepin?
  }

  lemma ServiceStepAddresses(cfg: Config, st: State, step: Step)
    requires AddressesOk(cfg, st) && ServiceStep(step)
    ensures AddressesOk(cfg, Next(cfg, st, step))
  {
    hide Reconciled, Fenced, ForceRepinStep, Registered, Beaten, ApplyTo, Conflict, TearDowns, Consistent, ValidNodes, InBlocks;
    match step
    case Register(id, addr, replicateAddr, cpu, memory, now) =>
      RegisteredKeepsBlocks(st.nodes, cfg.cluster, id, addr, replicateAddr, cpu, memory, now);
      NodesAddresses(cfg, st, Registered(st.nodes, cfg.cluster, id, addr, replicateAddr, cpu, memory, now));
    case Heartbeat(id, cpu, memory, running, now, calls, done) =>
      if id in st.nodes {
        BeatenKeepsBlocks(st.nodes, cfg.cluster, id, cpu, memory, running, now);
        var st1 := st.(nodes := Beaten(st.nodes, id, cpu, memory, running, now));
        NodesAddresses(cfg, st, st1.nodes);
        ReconciledAddresses(cfg, st1, now, calls);
        FencedServices(Reconciled(st1, now, calls), id, now, done);
      }
    case ApplyService(name, desired, template, port, now, calls) =>
      var r := ServiceApplied(st, cfg.service, name, desired, template, port);
      if r.Applied? { ReconciledAddresses(cfg, st.(services := r.services), now, calls); }
    case DeleteService(name, now, order, calls) =>
      if name in st.services {
        TearDownsOnly(st, name, now, order);
        var acts, st1 := TearDowns(st, name, now, order), st.(services := st.services - {name});
        RemovalsConsistent(st1, acts, calls, |acts|);
        ExecFollows(st1, acts, calls, |acts|);
        ExecKeeps(st1, acts, calls, |acts|);
      }
    case ForceRepin(name, now, ready, ok) => RepinAddresses(cfg, st, name, now, ready, ok);
  }

  /**
    * The requests that part an address entry from its placement: a plain jail put on another node under a name that
    * still has an entry, or a jail with an entry deleted directly.
    */
  ghost predicate Parts(st: State, step: Step) {
    match step
    case PutJail(node, name, now, ok) =>
      name in st.used.byJail && st.used.byJail[name].0 != node && !ServiceOwned(st, name) && Alive(st.nodes, node, now) && ok
    case DeleteJail(node, name, now, ok) => name in st.used.byJail && Alive(st.nodes, node, now) && ok
    case DeleteScheduledJail(name, now, ok) =>
      name in st.used.byJail && Alive(st.nodes, st.used.byJail[name].0, now) && ok
    case _ => false
  }

  /** A plain-jail request writes at most its own jail's placement, and no address. */
  lemma PlainStepWrites(cfg: Config, st: State, step: Step)
    requires !ServiceStep(step)
    ensures var after := Next(cfg, st, step);
            && after.used == st.used && after.nodes == st.nodes
            && after.placements - {step.name} == st.placements - {step.name}
  {
    hide ServiceOwned, Alive, Registered, HeartbeatStep, ApplyServiceStep, DeleteServiceStep, ForceRepinStep, AliveNodes;
    match step
    case PutJail(node, name, now, ok) =>
    case ScheduleJail(name, now, ok) =>
    case DeleteJail(node, name, now, ok) =>
    case DeleteScheduledJail(name, now, ok) =>
  }

  lemma PlainStepParts(cfg: Config, st: State, step: Step)
    requires Anchored(st) && !ServiceStep(step) && step.name in st.used.byJail
    ensures var after := Next(cfg, st, step).placements;
            Parts(st, step) <==> !(step.name in after && after[step.name] == st.placements[step.name])
  {
    hide ServiceOwned, Alive, Registered, HeartbeatStep, ApplyServiceStep, DeleteServiceStep, ForceRepinStep, AliveNodes;
    match step
    case PutJail(node, name, now, ok) =>
    case ScheduleJail(name, now, ok) =>
    case DeleteJail(node, name, now, ok) =>
    case DeleteScheduledJail(name, now, ok) =>
  }

  /** In a state whose addresses are in order, a handler leaves them so unless it parts an entry from its placement. */
  lemma StepAddressesIff(cfg: Config, st: State, step: Step)
    requires AddressesOk(cfg, st)
    ensures AddressesOk(cfg, Next(cfg, st, step)) <==> !Parts(st, step)
  {
    hide Next, Consistent, ValidNodes, InBlocks, Parts;
    if ServiceStep(step) {
      ServiceStepAddresses(cfg, st, step);
      assert !Parts(st, step) by { ServicesPartNothing(st, step); }
    } else {
      PlainStepWrites(cfg, st, step);
      if step.name in st.used.byJail { PlainStepParts(cfg, st, step); }
      if Parts(st, step) { PartsHasEntry(st, step); }
      var after := Next(cfg, st, step).placements;
      forall j | j != step.name ensures (j in after <==> j in st.placements) && (j in after ==> after[j] == st.placements[j]) {
        assert j in after - {step.name} <==> j in st.placements - {step.name};
      }
    }
  }

  lemma ServicesPartNothing(st: State, step: Step)
    requires ServiceStep(step)
    ensures !Parts(st, step)
  {
  }

  lemma PartsHasEntry(st: State, step: Step)
    requires Parts(st, step)
    ensures !ServiceStep(step) && step.name in st.used.byJail
  {
  }

  lemma {:induction false} RunAddresses(cfg: Config, run: seq<Step>, k: nat)
    requires k <= |run| && forall i | 0 <= i < k :: !Parts(After(cfg, Empty, run, i), run[i])
    ensures AddressesOk(cfg, After(cfg, Empty, run, k))
  {
    hide Next, AddressesOk, Parts;
    EmptyAddresses(cfg);
    if k > 0 {
      RunAddresses(cfg, run, k - 1);
      StepAddressesIff(cfg, After(cfg, Empty, run, k - 1), run[k - 1]);
    }
  }

  lemma EmptyAddresses(cfg: Config)
    ensures AddressesOk(cfg, Empty)
  {
  }

  /**
    * In every state of every run of all nine handlers, with any calls failing, no two replicas are recorded with the
    * same address, as long as no request has parted an address entry from its placement.
    */
  lemma AddressesUniqueInRuns(cfg: Config, run: seq<Step>, k: nat, i: string, j: string)
    requires k <= |run| && forall i | 0 <= i < k :: !Parts(After(cfg, Empty, run, i), run[i])
    ensures var byJail := After(cfg, Empty, run, k).used.byJail;
            i in byJail && j in byJail && byJail[i].1 == byJail[j].1 ==> i == j
  {
    hide After, AddressesOk, Parts;
    RunAddresses(cfg, run, k);
    var st := After(cfg, Empty, run, k);
    if i in st.used.byJail && j in st.used.byJail && st.used.byJail[i].1 == st.used.byJail[j].1 {
      AddressIdentifiesReplica(cfg, st, i, j);
    }
  }

  // ---------- virtual addresses ----------

  /** Whatever handler runs, virtual addresses stay distinct and in the prefix, and a surviving service keeps its own. */
  lemma StepVips(cfg: Config, st: State, step: Step)
    requires ValidServices(st.services, cfg.service)
    ensures var after := Next(cfg, st, step).services;
            && ValidServices(after, cfg.service)
            && forall s | s in st.services && s in after ::
                 after[s].vip == st.services[s].vip && after[s].template == st.services[s].template
  {
    hide ValidServices, ApplyTo, Conflict, PlanOf, Registered, Beaten, Fenced, PrepareForceRepin, TearDowns, ServiceOwned;
    match step
    case Heartbeat(id, cpu, memory, running, now, calls, done) =>
      var st1 := st.(nodes := Beaten(st.nodes, id, cpu, memory, running, now));
      ReconciledServices(st1, now, calls);
      FencedServices(Reconciled(st1, now, calls), id, now, done);
    case ApplyService(name, desired, template, port, now, calls) =>
      ApplyKeepsVips(st.services, cfg.service, name, desired, template, port);
      var r := ServiceApplied(st, cfg.service, name, desired, template, port);
      if r.Applied? { ReconciledServices(st.(services := r.services), now, calls); }
    case DeleteService(name, now, order, calls) =>
      var acts := TearDowns(st, name, now, order);
      ExecKeeps(st.(services := st.services - {name}), acts, calls, |acts|);
      RemoveKeepsVips(st.services, cfg.service, name);
    case _ =>
  }

  lemma RemoveKeepsVips(services: ServiceMap, cidr: Cidr, name: string)
    requires ValidServices(services, cidr)
    ensures ValidServices(services - {name}, cidr)
  {
  }

  lemma {:induction false} VipsUniqueInRuns(cfg: Config, run: seq<Step>, k: nat)
    requires k <= |run|
    ensures ValidServices(After(cfg, Empty, run, k).services, cfg.service)
  {
    hide Next;
    if k > 0 {
      VipsUniqueInRuns(cfg, run, k - 1);
      StepVips(cfg, After(cfg, Empty, run, k - 1), run[k - 1]);
    }
  }
}
