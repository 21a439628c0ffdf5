/** What deleting a service and the plain-jail requests leave behind. */
module Handlers {
  import opened Text
  import opened Environment
  import opened Subnet
  import opened Addresses
  import opened Scheduler
  import opened Registry
  import opened Services
  import opened Plan
  import opened Convergence
  import opened PlanAddresses
  import opened Protocol
  import opened Rounds

  // ---------- deleting a service ----------

  /** A placed replica of the service on an alive node. */
  predicate InReach(st: State, name: string, now: nat, j: string) {
    j in st.placements && ReplicaIndex(name, j).Some? && Alive(st.nodes, st.placements[j], now)
  }

  /** The replica has lost its placement, its address and the jail on its node; nothing else about it differs. */
  ghost predicate Gone(st: State, after: State, j: string) {
    && j in st.placements && j !in after.placements && j !in after.used.byJail
    && SameStandby(st, after, j)
    && (forall n :: (n, j) in after.jails <==> (n, j) in st.jails && n != st.placements[j])
  }

  /** Every action tears down a replica in reach, on its node. */
  ghost predicate TearsDown(st: State, name: string, now: nat, acts: seq<Action>) {
    forall k | 0 <= k < |acts| ::
      acts[k].TearDown? && InReach(st, name, now, Name(acts[k])) && acts[k].node == st.placements[Name(acts[k])]
  }

  lemma {:induction false} TearDownsInReach(st: State, name: string, now: nat, order: seq<string>)
    ensures TearsDown(st, name, now, TearDowns(st, name, now, order))
    ensures forall j | j in order && InReach(st, name, now, j) ::
              exists k :: 0 <= k < |TearDowns(st, name, now, order)| && Name(TearDowns(st, name, now, order)[k]) == j
    decreases |order|
  {
    hide ReplicaIndex, ReplicaName, Alive;
    if order != [] {
      var rest, j := order[..|order| - 1], order[|order| - 1];
      TearDownsInReach(st, name, now, rest);
      var acts, more := TearDowns(st, name, now, rest), TearDowns(st, name, now, order);
      assert order == rest + [j];
      if InReach(st, name, now, j) {
        ReplicaIndexIff(name, j, ReplicaIndex(name, j).value);
        assert Name(more[|acts|]) == j;
      }
      forall i | i in order && InReach(st, name, now, i) ensures exists k :: 0 <= k < |more| && Name(more[k]) == i {
        if i != j {
          var k :| 0 <= k < |acts| && Name(acts[k]) == i;
          assert more[k] == acts[k];
        }
      }
    }
  }

  lemma TearDownOne(st: State, r: State, a: Action, ok: bool, j: string)
    requires a.TearDown? && (SameEntries(st, r, j) || Gone(st, r, j))
    requires Name(a) == j ==> j in st.placements && a.node == st.placements[j]
    ensures var r' := ExecAction(r, a, ok);
            if ok && Name(a) == j then Gone(st, r', j)
            else (SameEntries(st, r, j) ==> SameEntries(st, r', j)) && (Gone(st, r, j) ==> Gone(st, r', j))
  {
    hide Name;
  }

  lemma {:induction false} TornDown(st: State, name: string, now: nat, acts: seq<Action>, ok: nat -> bool, k: nat, j: string)
    requires TearsDown(st, name, now, acts) && k <= |acts|
    ensures var r := Exec(st, acts, ok, k);
            && (SameEntries(st, r, j) || Gone(st, r, j))
            && ((exists i :: 0 <= i < k && ok(i) && Name(acts[i]) == j) ==> Gone(st, r, j))
  {
    hide Name, ReplicaIndex, Alive;
    if k > 0 {
      TornDown(st, name, now, acts, ok, k - 1, j);
      TearDownOne(st, Exec(st, acts, ok, k - 1), acts[k - 1], ok(k - 1), j);
    }
  }

  /**
    * Deleting a service drops it whatever the calls do. Each of its replicas on an alive node is either gone or, its call
    * having failed, as it was; if every call succeeds, all of them are gone. Everyone else's entries, and those of replicas
    * out of reach, stay.
    */
  lemma ServiceDeleted(cfg: Config, st: State, name: string, now: nat, order: seq<string>, calls: nat -> bool, j: string)
    requires name in st.services && forall i | i in st.placements :: i in order
    ensures var after := Next(cfg, st, DeleteService(name, now, order, calls));
            && after.services == st.services - {name} && after.nodes == st.nodes && after.fences == st.fences
            && (!InReach(st, name, now, j) ==> SameEntries(st, after, j))
            && (InReach(st, name, now, j) ==> SameEntries(st, after, j) || Gone(st, after, j))
            && (InReach(st, name, now, j) && calls == Always ==> Gone(st, after, j))
  {
    hide TearDowns, InReach, SameEntries, Gone, Exec, TearsDown;
    var acts, st1 := TearDowns(st, name, now, order), st.(services := st.services - {name});
    TearDownsInReach(st, name, now, order);
    SameTables(st, st1, name, now, acts, Exec(st1, acts, calls, |acts|), j);
    TornDown(st1, name, now, acts, calls, |acts|, j);
    ExecKeeps(st1, acts, calls, |acts|);
    if InReach(st, name, now, j) { assert j in order by { InReachIsPlaced(st, name, now, j); } }
    if !InReach(st, name, now, j) {
      NotNamed(st, name, now, acts, j);
      UntouchedSoFar(st1, acts, calls, |acts|, j);
    }
  }

  lemma InReachIsPlaced(st: State, name: string, now: nat, j: string)
    requires InReach(st, name, now, j)
    ensures j in st.placements
  {
  }

  lemma NotNamed(st: State, name: string, now: nat, acts: seq<Action>, j: string)
    requires TearsDown(st, name, now, acts) && !InReach(st, name, now, j)
    ensures forall k | 0 <= k < |acts| :: Name(acts[k]) != j
  {
    hide Name, InReach;
  }

  lemma SameTables(st: State, st1: State, name: string, now: nat, acts: seq<Action>, r: State, j: string)
    requires st1 == st.(services := st1.services) && TearsDown(st, name, now, acts)
    ensures TearsDown(st1, name, now, acts)
    ensures (SameEntries(st1, r, j) <==> SameEntries(st, r, j)) && (Gone(st1, r, j) <==> Gone(st, r, j))
  {
    hide Name, ReplicaIndex, Alive;
  }

  // ---------- accepted and refused requests ----------

  /**
    * A service is accepted exactly when nobody else uses its replica names, and it keeps its template and port if it is
    * known or finds a free address if it is new.
    */
  lemma ServiceAcceptedIff(cfg: Config, st: State, name: string, desired: u32, template: Template, port: nat)
    ensures ServiceApplied(st, cfg.service, name, desired, template, port).Applied? <==>
            if name in st.services then st.services[name].template == template && st.services[name].port == port
            else && (forall k | 0 <= k < desired :: ReplicaName(name, k) !in st.placements)
                 && exists a: u32 :: Contains(cfg.service, a) && forall s | s in st.services :: st.services[s].vip != a
  {
    hide ReplicaName, Contains, ApplyTo;
    ConflictIff(st, name, desired, 0);
    AppliedIff(st.services, cfg.service, name, desired, template, port);
  }

  /** A refused service, an unknown node's heartbeat and a promotion that does not go through change nothing. */
  lemma RefusalsChangeNothing(cfg: Config, st: State, step: Step)
    requires || (step.ApplyService? && ServiceApplied(st, cfg.service, step.name, step.desired, step.template, step.port).Refused?)
             || (step.DeleteService? && step.name !in st.services)
             || (step.Heartbeat? && step.id !in st.nodes)
             || (step.ForceRepin? && (PrepareForceRepin(st, step.name, step.now).NotPrepared? || !step.ready || !step.ok))
             || (step.Register? && exists n | n in st.nodes :: n != step.id && st.nodes[n].pod == DerivePodCidr(step.id, cfg.cluster))
    ensures Next(cfg, st, step) == st
  {
    hide Conflict, ApplyTo, Reconciled, TearDowns, DerivePodCidr, Fenced, Beaten, OwnerOf, Pick, Alive, Recorded, PlanOf, Exec;
  }

  // ---------- plain jails ----------

  ghost predicate OwnedByService(st: State, name: string) {
    name in st.placements && exists s :: s in st.services && ReplicaIndex(s, name).Some?
  }

  lemma OwnedIff(st: State, name: string)
    ensures ServiceOwned(st, name) <==> OwnedByService(st, name)
  {
    hide ReplicaIndex;
    assert forall s :: Owns(st.services, s, name) <==> s in st.services && ReplicaIndex(s, name).Some?;
  }

  /** The jail is placed on the node and held there; nothing else differs. */
  ghost predicate PlacedOn(st: State, after: State, name: string, node: string) {
    after == st.(placements := st.placements[name := node], jails := st.jails + {(node, name)})
  }

  /** A direct apply takes effect exactly when no service owns the name, the node is alive and the call succeeds. */
  lemma PutJailLands(cfg: Config, st: State, node: string, name: string, now: nat, ok: bool)
    ensures var after := Next(cfg, st, PutJail(node, name, now, ok));
            if !OwnedByService(st, name) && Alive(st.nodes, node, now) && ok then PlacedOn(st, after, name, node) else after == st
  {
    hide ServiceOwned, OwnedByService, Alive, Registered, HeartbeatStep, ApplyServiceStep, DeleteServiceStep, ForceRepinStep;
    OwnedIff(st, name);
  }

  /** A scheduled apply goes to the node the jail is placed on, or else to the best alive node; it never moves a jail. */
  lemma ScheduledJailLands(cfg: Config, st: State, name: string, now: nat, ok: bool)
    ensures var after := Next(cfg, st, ScheduleJail(name, now, ok));
            && (OwnedByService(st, name) || !ok ==> after == st)
            && (!OwnedByService(st, name) && ok && name in st.placements ==>
                  if Alive(st.nodes, st.placements[name], now) then PlacedOn(st, after, name, st.placements[name]) else after == st)
            && (!OwnedByService(st, name) && ok && name !in st.placements ==>
                  if exists n :: Alive(st.nodes, n, now) then exists n :: IsChoice(st, now, {}, n) && PlacedOn(st, after, name, n) else after == st)
  {
    hide ServiceOwned, OwnedByService, Alive, IsChoice, PlacedOn, Registered, HeartbeatStep, ApplyServiceStep, DeleteServiceStep,
         ForceRepinStep, Pick, AliveNodes, PickNode;
    OwnedIff(st, name);
    PickIsChoice(st, now, {});
    PickOfAll(st, now);
    var pick := Pick(st, now, {});
    if pick.Some? { ChoiceIsAlive(st, now, {}, pick.value); }
    forall n ensures PlacedOn(st, Placed(st, name, n), name, n) { PlacedIs(st, name, n); }
  }

  lemma PlacedIs(st: State, name: string, n: string)
    ensures PlacedOn(st, Placed(st, name, n), name, n)
  {
  }

  lemma PickOfAll(st: State, now: nat)
    ensures Pick(st, now, {}) == PickNode(AliveNodes(st.nodes, now))
  {
    hide AliveNodes, PickNode;
    PickNodeIgnoresOrder(Idle(AliveNodes(st.nodes, now), {}), AliveNodes(st.nodes, now));
  }

  /** A direct delete drops the placement, wherever it points, and the jail on the node it names. */
  lemma DeletedJailGoes(cfg: Config, st: State, node: string, name: string, now: nat, ok: bool)
    ensures var after := Next(cfg, st, DeleteJail(node, name, now, ok));
            if Alive(st.nodes, node, now) && ok
            then after == st.(placements := st.placements - {name}, jails := st.jails - {(node, name)}) else after == st
    ensures var after := Next(cfg, st, DeleteScheduledJail(name, now, ok));
            if name in st.placements && Alive(st.nodes, st.placements[name], now) && ok
            then after == st.(placements := st.placements - {name}, jails := st.jails - {(st.placements[name], name)}) else after == st
  {
    hide Alive, Registered, HeartbeatStep, ApplyServiceStep, DeleteServiceStep, ForceRepinStep;
  }
}
