/** A replica with volumes is never on a node the control plane has lost track of. */
module SingleHolder {
  import opened Text
  import opened Subnet
  import opened Addresses
  import opened Registry
  import opened Services
  import opened Plan
  import opened Convergence
  import opened PlanAddresses
  import opened Protocol

  /** A node holding a replica is its recorded placement, or is owed a forced delete for it. */
  predicate Accounted(st: State, node: string, r: string) {
    || (r in st.placements && st.placements[r] == node)
    || (r in st.fences && st.fences[r] == node)
  }

  ghost predicate StatefulReplica(st: State, r: string) {
    exists s :: Owns(st.services, s, r) && Stateful(st.services[s])
  }

  /** Every held jail is some service's replica, and every holder of a replica with volumes is accounted for. */
  ghost predicate Held(st: State) {
    forall n, r | (n, r) in st.jails ::
      (exists s :: Owns(st.services, s, r)) && (StatefulReplica(st, r) ==> Accounted(st, n, r))
  }

  // ---------- executing plans ----------

  lemma {:induction false} PlacementsUntouched(st: State, acts: seq<Action>, ok: nat -> bool, k: nat, j: nat)
    requires DistinctNames(acts) && k <= j < |acts|
    ensures var p := Exec(st, acts, ok, k).placements;
            (Name(acts[j]) in p <==> Name(acts[j]) in st.placements) &&
            (Name(acts[j]) in p ==> p[Name(acts[j])] == st.placements[Name(acts[j])])
  {
    hide Name, Recorded, Released;
    if k > 0 {
      PlacementsUntouched(st, acts, ok, k - 1, j);
      assert Name(acts[k - 1]) != Name(acts[j]);
    }
  }

  /** One executed action keeps every holder accounted for. */
  lemma ActionHeld(st: State, now: nat, a: Action)
    requires Held(st) && a.service in st.services && a.index < TWO32
    requires a.Schedule? ==> a.index !in Present(st, a.service, now)
    requires a.TearDown? ==> Name(a) in st.placements && st.placements[Name(a)] == a.node
    ensures Held(ExecAction(st, a, true))
  {
    hide Recorded, Released, ReplicaIndex, ReplicaName, Present, Alive;
    var st' := ExecAction(st, a, true);
    ReplicaIndexIff(a.service, Name(a), a.index);
    InPresent(st, a.service, now, a.index);
    assert Owns(st.services, a.service, Name(a));
    forall n, r | (n, r) in st'.jails
      ensures (exists s :: Owns(st.services, s, r)) && (StatefulReplica(st', r) ==> Accounted(st', n, r))
    {
      if StatefulReplica(st', r) && r == Name(a) {
        var s :| Owns(st.services, s, r) && Stateful(st.services[s]);
        OneService(s, a.service, r);
      }
      assert StatefulReplica(st', r) <==> StatefulReplica(st, r);
    }
  }

  lemma {:induction false} ExecHeld(st: State, now: nat, acts: seq<Action>, ok: nat -> bool, k: nat)
    requires Held(st) && WellPlanned(st, now, acts) && DistinctNames(acts) && k <= |acts|
    ensures Held(Exec(st, acts, ok, k))
  {
    hide Held, Present, Recorded, Released, ReplicaName, Alive, WellPlanned, DistinctNames;
    if k > 0 {
      ExecHeld(st, now, acts, ok, k - 1);
      if ok(k - 1) {
        var a, r := acts[k - 1], Exec(st, acts, ok, k - 1);
        PlannedFits(st, now, acts, k - 1);
        InPresent(st, a.service, now, a.index);
        ExecKeeps(st, acts, ok, k - 1);
        FitsAfter(st, now, acts, ok, k - 1);
        PlacementsUntouched(st, acts, ok, k - 1, k - 1);
        ActionHeld(r, now, a);
      }
    }
  }

  lemma PlannedFits(st: State, now: nat, acts: seq<Action>, k: nat)
    requires WellPlanned(st, now, acts) && k < |acts|
    ensures Fits(st, now, acts[k])
  {
  }

  lemma ReconciledHeld(st: State, now: nat, ok: nat -> bool)
    requires Held(st)
    ensures Held(Reconciled(st, now, ok))
  {
    hide Held, WellPlanned, DistinctNames, PlanOf;
    PlanIsWell(st, now, ok);
    PlanNamesDistinct(st, now);
    ExecHeld(st, now, PlanOf(st, now), ok, |PlanOf(st, now)|);
  }

  // ---------- the other steps ----------

  lemma NodesHeld(st: State, nodes: Nodes)
    requires Held(st)
    ensures Held(st.(nodes := nodes))
  {
    assert forall r :: StatefulReplica(st.(nodes := nodes), r) <==> StatefulReplica(st, r);
  }

  lemma FencedHeld(st: State, node: string, now: nat, done: set<string>)
    requires Held(st)
    ensures Held(Fenced(st, node, now, done))
  {
    var st' := Fenced(st, node, now, done);
    forall n, r | (n, r) in st'.jails
      ensures (exists s :: Owns(st'.services, s, r)) && (StatefulReplica(st', r) ==> Accounted(st', n, r))
    {
      assert (n, r) in st.jails;
      assert StatefulReplica(st', r) <==> StatefulReplica(st, r);
      var gone := Owed(st, node) * done;
      if Alive(st.nodes, node, now) && r in gone {
        assert (node, r) in (set q | q in gone :: (node, q));
      }
    }
  }

  /** A new service takes over no held jail, because every held jail already has its service. */
  lemma ServicesHeld(st: State, services: ServiceMap, name: string, desired: u32)
    requires Held(st) && Updated(st.services, services, name, desired)
    ensures Held(st.(services := services))
  {
    hide ReplicaIndex;
    var st' := st.(services := services);
    forall n, r | (n, r) in st'.jails
      ensures (exists s :: Owns(services, s, r)) && (StatefulReplica(st', r) ==> Accounted(st', n, r))
    {
      var s :| Owns(st.services, s, r);
      assert Owns(services, s, r);
      if StatefulReplica(st', r) {
        var t :| Owns(services, t, r) && Stateful(services[t]);
        OneService(s, t, r);
        assert StatefulReplica(st, r);
      }
    }
  }

  /** An undischarged fence whose node still holds the replica and is neither its placement nor its standby. */
  predicate FenceInTheWay(st: State, name: string) {
    && name in st.fences && (st.fences[name], name) in st.jails
    && !(name in st.placements && st.placements[name] == st.fences[name])
    && !(name in st.standbys && st.standbys[name] == st.fences[name])
  }

  /**
    * A successful promotion keeps every holder accounted for exactly when no third node still holds the replica
    * under an older, undischarged fence, which the promotion overwrites.
    */
  lemma RepinHeldIff(st: State, name: string, now: nat)
    requires Held(st) && PrepareForceRepin(st, name, now).Prepared? && StatefulReplica(st, name)
    ensures Held(ForceRepinStep(st, name, now, true, true)) <==> !FenceInTheWay(st, name)
  {
    hide PrepareForceRepin, Recorded, ReplicaIndex;
    RepinUsesThreeNodes(st, name, now);
    var p, st' := PrepareForceRepin(st, name, now), ForceRepinStep(st, name, now, true, true);
    assert forall r :: StatefulReplica(st', r) <==> StatefulReplica(st, r);
    if FenceInTheWay(st, name) {
      assert (st.fences[name], name) in st'.jails && !Accounted(st', st.fences[name], name);
    } else {
      forall n, r | (n, r) in st'.jails
        ensures (exists s :: Owns(st'.services, s, r)) && (StatefulReplica(st', r) ==> Accounted(st', n, r))
      {
        if r != name { assert (n, r) in st.jails; }
      }
    }
  }

  /** A force-repin that goes through and overwrites such a fence of a replica with volumes. */
  ghost predicate LosesHolder(st: State, name: string, now: nat, ready: bool, ok: bool) {
    ready && ok && PrepareForceRepin(st, name, now).Prepared? && StatefulReplica(st, name) && FenceInTheWay(st, name)
  }

  lemma RepinHeld(st: State, name: string, now: nat, ready: bool, ok: bool)
    requires Held(st)
    ensures Held(ForceRepinStep(st, name, now, ready, ok)) <==> !LosesHolder(st, name, now, ready, ok)
  {
    hide PrepareForceRepin, Recorded, ReplicaIndex, Held, StatefulReplica, FenceInTheWay;
    var p := PrepareForceRepin(st, name, now);
    if p.Prepared? && ready && ok {
      if StatefulReplica(st, name) { RepinHeldIff(st, name, now); } else { StatelessRepinHeld(st, name, now); }
    }
  }

  lemma StatelessRepinHeld(st: State, name: string, now: nat)
    requires Held(st) && PrepareForceRepin(st, name, now).Prepared? && !StatefulReplica(st, name)
    ensures Held(ForceRepinStep(st, name, now, true, true))
  {
    hide PrepareForceRepin, Recorded, ReplicaIndex;
    RepinUsesThreeNodes(st, name, now);
    var st' := ForceRepinStep(st, name, now, true, true);
    assert forall r :: StatefulReplica(st', r) <==> StatefulReplica(st, r);
    forall n, r | (n, r) in st'.jails
      ensures (exists s :: Owns(st'.services, s, r)) && (StatefulReplica(st', r) ==> Accounted(st', n, r))
    {
      if r != name { assert (n, r) in st.jails; }
    }
  }

  /**
    * Deleting a replica's jail directly on one node drops its placement, wherever that points: the invariant survives
    * exactly when the recorded placement is not some other node that holds the jail without being owed a fence.
    */
  lemma DirectDeleteHeldIff(st: State, node: string, name: string, now: nat)
    requires Held(st) && Alive(st.nodes, node, now) && StatefulReplica(st, name)
    ensures Held(DeleteJailStep(st, node, name, now, true)) <==>
            (name in st.placements && (st.placements[name], name) in st.jails ==>
               st.placements[name] == node || (name in st.fences && st.fences[name] == st.placements[name]))
  {
    hide ReplicaIndex, Alive;
    var st' := DeleteJailStep(st, node, name, now, true);
    assert forall r :: StatefulReplica(st', r) <==> StatefulReplica(st, r);
    if name in st.placements && (st.placements[name], name) in st.jails && st.placements[name] != node
       && !(name in st.fences && st.fences[name] == st.placements[name]) {
      assert (st.placements[name], name) in st'.jails && !Accounted(st', st.placements[name], name);
    } else {
      forall n, r | (n, r) in st'.jails
        ensures (exists s :: Owns(st'.services, s, r)) && (StatefulReplica(st', r) ==> Accounted(st', n, r))
      {
        assert (n, r) in st.jails;
      }
    }
  }

  // ---------- whole runs ----------

  /** Registrations, heartbeats, service applies and force-repins. */
  predicate Covered(step: Step) {
    step.Register? || step.Heartbeat? || step.ApplyService? || step.ForceRepin?
  }

  ghost predicate Loses(st: State, step: Step) {
    step.ForceRepin? && LosesHolder(st, step.name, step.now, step.ready, step.ok)
  }

  /** Such a step keeps every holder accounted for, unless it is a force-repin that overwrites a fence still needed. */
  lemma StepHeldIff(cfg: Config, st: State, step: Step)
    requires Held(st) && Covered(step)
    requires ValidServices(st.services, cfg.service)
    ensures Held(Next(cfg, st, step)) <==> !Loses(st, step)
    ensures ValidServices(Next(cfg, st, step).services, cfg.service)
  {
    hide Held, Reconciled, Fenced, ForceRepinStep, ValidServices, ApplyTo, Conflict, Registered, Beaten, LosesHolder;
    match step
    case Register(id, addr, replicateAddr, cpu, memory, now) =>
      NodesHeld(st, Registered(st.nodes, cfg.cluster, id, addr, replicateAddr, cpu, memory, now));
    case Heartbeat(id, cpu, memory, running, now, calls, done) =>
      if id in st.nodes {
        var st1 := st.(nodes := Beaten(st.nodes, id, cpu, memory, running, now));
        NodesHeld(st, st1.nodes);
        ReconciledHeld(st1, now, calls);
        FencedHeld(Reconciled(st1, now, calls), id, now, done);
        ReconciledServices(st1, now, calls);
        FencedServices(Reconciled(st1, now, calls), id, now, done);
      }
    case ApplyService(name, desired, template, port, now, calls) =>
      ApplyKeepsVips(st.services, cfg.service, name, desired, template, port);
      var r := ServiceApplied(st, cfg.service, name, desired, template, port);
      if r.Applied? {
        ServicesHeld(st, r.services, name, desired);
        ReconciledHeld(st.(services := r.services), now, calls);
        ReconciledServices(st.(services := r.services), now, calls);
      }
    case ForceRepin(name, now, ready, ok) =>
      RepinHeld(st, name, now, ready, ok);
      RepinServices(st, name, now, ready, ok);
  }

  lemma ReconciledServices(st: State, now: nat, ok: nat -> bool)
    ensures Reconciled(st, now, ok).services == st.services && Reconciled(st, now, ok).nodes == st.nodes
  {
    hide PlanOf;
    ExecKeeps(st, PlanOf(st, now), ok, |PlanOf(st, now)|);
  }

  lemma FencedServices(st: State, node: string, now: nat, done: set<string>)
    ensures var r := Fenced(st, node, now, done);
            r.services == st.services && r.nodes == st.nodes && r.placements == st.placements && r.used == st.used
  {
  }

  lemma RepinServices(st: State, name: string, now: nat, ready: bool, ok: bool)
    ensures var r := ForceRepinStep(st, name, now, ready, ok);
            r.services == st.services && r.nodes == st.nodes
  {
  }

  ghost predicate CoveredRun(cfg: Config, run: seq<Step>, k: nat)
    requires k <= |run|
  {
    forall i | 0 <= i < k :: Covered(run[i]) && !Loses(After(cfg, Empty, run, i), run[i])
  }

  lemma {:induction false} RunHeld(cfg: Config, run: seq<Step>, k: nat)
    requires k <= |run| && CoveredRun(cfg, run, k)
    ensures Held(After(cfg, Empty, run, k)) && ValidServices(After(cfg, Empty, run, k).services, cfg.service)
  {
    hide Next, Covered, Loses;
    if k > 0 {
      RunHeld(cfg, run, k - 1);
      StepHeldIff(cfg, After(cfg, Empty, run, k - 1), run[k - 1]);
    }
  }

  /**
    * In every state of a covered run, any node holding a replica with volumes is its placement or is owed its fence;
    * so it is on at most two nodes, and on at most one when no fence is outstanding.
    */
  lemma SingleHolderSafety(cfg: Config, run: seq<Step>, k: nat, r: string)
    requires k <= |run| && CoveredRun(cfg, run, k) && StatefulReplica(After(cfg, Empty, run, k), r)
    ensures var st := After(cfg, Empty, run, k);
            && (forall n | (n, r) in st.jails :: Accounted(st, n, r))
            && (forall a, b, c | (a, r) in st.jails && (b, r) in st.jails && (c, r) in st.jails :: a == b || b == c || a == c)
            && (r !in st.fences ==> forall a, b | (a, r) in st.jails && (b, r) in st.jails :: a == b)
  {
    hide After, StatefulReplica;
    RunHeld(cfg, run, k);
  }
}
