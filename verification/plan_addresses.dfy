/** The addresses a plan hands out, and when a partly failed round can give one address to two replicas. */
module PlanAddresses {
  import opened Text
  import opened Environment
  import opened Subnet
  import opened Addresses
  import opened Registry
  import opened Services
  import opened Plan
  import opened Convergence

  predicate Schedules(acts: seq<Action>, jail: string) {
    exists k :: 0 <= k < |acts| && acts[k].Schedule? && Name(acts[k]) == jail
  }

  /** The address table a pass works on: the real one, overwritten for the replicas it has scheduled. */
  ghost predicate Tracks(st: State, w: Work) {
    && Consistent(w.used)
    && (forall j | !Schedules(w.actions, j) ::
          (j in w.used.byJail <==> j in st.used.byJail) && (j in st.used.byJail ==> w.used.byJail[j] == st.used.byJail[j]))
    && (forall k | 0 <= k < |w.actions| && w.actions[k].Schedule? ::
          var a := w.actions[k];
          && Name(a) in w.used.byJail && w.used.byJail[Name(a)] == (a.node, a.address)
          && a.node in st.nodes && Assignable(st.nodes[a.node].pod, a.address))
  }

  lemma AppendTracks(st: State, w: Work, a: Action, r: Work)
    requires Tracks(st, w) && a.Schedule? && !Schedules(w.actions, Name(a))
    requires a.node in st.nodes && Assignable(st.nodes[a.node].pod, a.address) && a.address !in Taken(w.used, a.node)
    requires r.actions == w.actions + [a] && r.used == Recorded(w.used, Name(a), a.node, a.address)
    ensures Tracks(st, r)
  {
    hide Consistent, Taken, Assignable, Name, Recorded, Schedules;
    RecordedEntries(w.used, Name(a), a.node, a.address);
    assert forall j | j in w.used.byJail :: w.used.byJail[j] != (a.node, a.address) by { NotTaken(w.used, a.node, a.address); }
    RecordConsistent(w.used, Name(a), a.node, a.address);
    forall j ensures Schedules(r.actions, j) <==> Schedules(w.actions, j) || j == Name(a) {
      SchedulesSnoc(w.actions, a, j);
    }
    forall k | 0 <= k < |w.actions| && w.actions[k].Schedule? ensures Name(w.actions[k]) != Name(a) {
      assert Schedules(w.actions, Name(w.actions[k])) by { IsScheduled(w.actions, k); }
    }
  }

  lemma IsScheduled(acts: seq<Action>, k: nat)
    requires k < |acts| && acts[k].Schedule?
    ensures Schedules(acts, Name(acts[k]))
  {
  }

  lemma SchedulesSnoc(acts: seq<Action>, a: Action, j: string)
    ensures Schedules(acts + [a], j) <==> Schedules(acts, j) || (a.Schedule? && Name(a) == j)
  {
    var more := acts + [a];
    assert more[|acts|] == a;
    if Schedules(acts, j) {
      var k :| 0 <= k < |acts| && acts[k].Schedule? && Name(acts[k]) == j;
      assert more[k] == acts[k];
    }
  }

  lemma NotTaken(u: Used, node: string, address: u32)
    requires Consistent(u) && address !in Taken(u, node)
    ensures forall j | j in u.byJail :: u.byJail[j] != (node, address)
  {
  }

  lemma AddTracks(st: State, now: nat, s: string, index: nat, w: Work)
    requires s in st.services && Tracks(st, w) && !Schedules(w.actions, ReplicaName(s, index))
    ensures Tracks(st, PlanAdd(st, now, s, index, w))
  {
    hide Tracks, Recorded, ReplicaName, Pick, PickStandby;
    var r := PlanAdd(st, now, s, index, w);
    if r != w { AppendTracks(st, w, r.actions[|w.actions|], r); }
  }

  /** No earlier action names the replica about to be added. */
  lemma NotYetScheduled(st: State, now: nat, s: string, acts: seq<Action>, from: nat, pool: seq<nat>, index: nat)
    requires from <= |acts| && ForService(st, now, s, acts, from, pool) && index !in pool
    requires forall j | 0 <= j < from :: acts[j].service != s
    ensures !Schedules(acts, ReplicaName(s, index))
  {
    hide ReplicaName, Fits;
    forall k | 0 <= k < |acts| && acts[k].Schedule? ensures Name(acts[k]) != ReplicaName(s, index) {
      if Name(acts[k]) == ReplicaName(s, index) {
        ReplicaNameInjective(acts[k].service, acts[k].index, s, index);
      }
    }
  }

  lemma {:induction false} AddsTrack(st: State, now: nat, s: string, add: seq<nat>, w: Work, k: nat)
    requires s in st.services && k <= |add| && Tracks(st, w)
    requires forall j | 0 <= j < |w.actions| :: w.actions[j].service != s
    requires forall i, j | 0 <= i < j < |add| :: add[i] < add[j]
    requires |Present(st, s, now)| < st.services[s].desired || add == []
    requires forall i | 0 <= i < |add| :: add[i] < st.services[s].desired && add[i] !in Present(st, s, now)
    ensures Tracks(st, PlanAdds(st, now, s, add, w, k))
  {
    hide PlanAdd, Tracks, Present, ForService, ReplicaName;
    if k > 0 {
      AddsTrack(st, now, s, add, w, k - 1);
      AddsShape(st, now, s, add, w, k - 1);
      var w1 := PlanAdds(st, now, s, add, w, k - 1);
      assert forall j | 0 <= j < |w.actions| :: w1.actions[j] == w.actions[j];
      NotYetScheduled(st, now, s, w1.actions, |w.actions|, add[..k - 1], add[k - 1]);
      AddTracks(st, now, s, add[k - 1], w1);
    }
  }

  lemma RemoveTracks(st: State, w: Work, a: Action)
    requires Tracks(st, w) && a.TearDown?
    ensures Tracks(st, w.(actions := w.actions + [a]))
  {
    hide Consistent, Assignable;
    forall j ensures Schedules(w.actions + [a], j) <==> Schedules(w.actions, j) {
      SchedulesSnoc(w.actions, a, j);
    }
  }

  lemma {:induction false} RemovesTrack(st: State, now: nat, s: string, remove: seq<nat>, w: Work, k: nat)
    requires k <= |remove| && Tracks(st, w)
    ensures Tracks(st, PlanRemoves(st, now, s, remove, w, k))
  {
    hide Tracks, Alive, ReplicaName;
    if k > 0 {
      RemovesTrack(st, now, s, remove, w, k - 1);
      var w1 := PlanRemoves(st, now, s, remove, w, k - 1);
      var r := PlanRemove(st, now, s, remove[k - 1], w1);
      if r != w1 { RemoveTracks(st, w1, r.actions[|w1.actions|]); }
    }
  }

  lemma {:induction false} ServicesTrack(st: State, now: nat, order: seq<string>, k: nat)
    requires k <= |order| && forall s | s in order :: s in st.services
    requires forall i, j | 0 <= i < j < |order| :: order[i] != order[j]
    requires Consistent(st.used)
    ensures Tracks(st, PlanServices(st, now, order, k))
  {
    hide Tracks, Present, PlanAdds, PlanRemoves, WellPlanned, Consistent, Hosting, DiffReplicas, Alive;
    StartTracks(st);
    if k > 0 {
      ServicesTrack(st, now, order, k - 1);
      ServicesShape(st, now, order, k - 1, Always);
      var s, w := order[k - 1], PlanServices(st, now, order, k - 1);
      var (add, remove) := DiffReplicas(st.services[s].desired, Present(st, s, now));
      DiffInRange(st.services[s].desired, Present(st, s, now));
      var w0 := w.(busy := Hosting(s, st.placements));
      assert Tracks(st, w0) by { BusyIsFree(st, w, w0); }
      AddsTrack(st, now, s, add, w0, |add|);
      RemovesTrack(st, now, s, remove, PlanAdds(st, now, s, add, w0, |add|), |remove|);
    }
  }

  lemma StartTracks(st: State)
    requires Consistent(st.used)
    ensures Tracks(st, Work([], st.used, {}))
  {
  }

  lemma BusyIsFree(st: State, w: Work, w0: Work)
    requires Tracks(st, w) && w0.actions == w.actions && w0.used == w.used
    ensures Tracks(st, w0)
  {
  }

  // ---------- which rounds keep addresses unique ----------

  /** A plan's addresses: assignable, pairwise distinct, and free unless held by a replica the plan reschedules. */
  ghost predicate FreshAddresses(st: State, acts: seq<Action>) {
    && (forall k | 0 <= k < |acts| && acts[k].Schedule? ::
          acts[k].node in st.nodes && Assignable(st.nodes[acts[k].node].pod, acts[k].address))
    && (forall j, k | 0 <= j < k < |acts| && acts[j].Schedule? && acts[k].Schedule? ::
          (acts[j].node, acts[j].address) != (acts[k].node, acts[k].address))
    && (forall k, j | 0 <= k < |acts| && acts[k].Schedule? && j in st.used.byJail ::
          st.used.byJail[j] == (acts[k].node, acts[k].address) ==> Schedules(acts, j))
  }

  ghost predicate DistinctNames(acts: seq<Action>) {
    forall j, k | 0 <= j < k < |acts| :: Name(acts[j]) != Name(acts[k])
  }

  lemma PlanNamesDistinct(st: State, now: nat)
    ensures DistinctNames(PlanOf(st, now))
  {
    hide PlanOf, Present, ReplicaName, Fits;
    PlanIsWell(st, now, Always);
    var acts := PlanOf(st, now);
    forall j, k | 0 <= j < k < |acts| ensures Name(acts[j]) != Name(acts[k]) {
      if Name(acts[j]) == Name(acts[k]) {
        ReplicaNameInjective(acts[j].service, acts[j].index, acts[k].service, acts[k].index);
      }
    }
  }

  lemma TrackedIsFresh(st: State, w: Work)
    requires Tracks(st, w) && DistinctNames(w.actions)
    ensures FreshAddresses(st, w.actions)
  {
    hide Name, Assignable;
    var acts := w.actions;
    forall j, k | 0 <= j < k < |acts| && acts[j].Schedule? && acts[k].Schedule?
      ensures (acts[j].node, acts[j].address) != (acts[k].node, acts[k].address)
    {
      assert w.used.byJail[Name(acts[j])] == (acts[j].node, acts[j].address);
      assert w.used.byJail[Name(acts[k])] == (acts[k].node, acts[k].address);
    }
    forall k, j | 0 <= k < |acts| && acts[k].Schedule? && j in st.used.byJail && st.used.byJail[j] == (acts[k].node, acts[k].address)
      ensures Schedules(acts, j)
    {
      assert w.used.byJail[Name(acts[k])] == (acts[k].node, acts[k].address);
      if j == Name(acts[k]) { assert Schedules(acts, j); }
    }
  }

  lemma PlanIsFresh(st: State, now: nat)
    requires Consistent(st.used)
    ensures FreshAddresses(st, PlanOf(st, now)) && DistinctNames(PlanOf(st, now))
  {
    hide Consistent, Tracks, FreshAddresses, DistinctNames, PlanServices;
    var order := SortedKeys(st.services.Keys);
    forall i, j | 0 <= i < j < |order| ensures order[i] != order[j] { LessTotal(order[i], order[j]); }
    ServicesTrack(st, now, order, |order|);
    PlanNamesDistinct(st, now);
    TrackedIsFresh(st, PlanServices(st, now, order, |order|));
  }

  /** No action is given the address another replica of the same plan still holds. */
  ghost predicate NoReuse(st: State, acts: seq<Action>) {
    forall j, k | 0 <= j < |acts| && 0 <= k < |acts| && j != k && acts[j].Schedule? && acts[k].Schedule? ::
      Name(acts[k]) in st.used.byJail ==> st.used.byJail[Name(acts[k])] != (acts[j].node, acts[j].address)
  }

  /** Where an address entry comes from after the first `k` actions. */
  ghost predicate Sourced(st: State, acts: seq<Action>, k: nat, u: Used)
    requires k <= |acts|
  {
    forall j | j in u.byJail ::
      || (j in st.used.byJail && u.byJail[j] == st.used.byJail[j])
      || exists i :: 0 <= i < k && acts[i].Schedule? && u.byJail[j] == (acts[i].node, acts[i].address)
  }

  lemma SourcedStep(st: State, acts: seq<Action>, k: nat, u: Used)
    requires k < |acts| && Sourced(st, acts, k, u) && Consistent(u)
    requires FreshAddresses(st, acts) && NoReuse(st, acts) && DistinctNames(acts)
    ensures var a := acts[k];
            var v := if a.Schedule? then Recorded(u, Name(a), a.node, a.address) else Released(u, Name(a));
            Sourced(st, acts, k + 1, v) && Consistent(v)
  {
    hide Name, Consistent, Assignable;
    var a := acts[k];
    if a.Schedule? {
      forall j | j in u.byJail && j != Name(a) ensures u.byJail[j] != (a.node, a.address) {
        if j in st.used.byJail && u.byJail[j] == st.used.byJail[j] {
          if Schedules(acts, j) {
            var i :| 0 <= i < |acts| && acts[i].Schedule? && Name(acts[i]) == j;
            assert i != k;
          }
        } else {
          var i :| 0 <= i < k && acts[i].Schedule? && u.byJail[j] == (acts[i].node, acts[i].address);
          assert (acts[i].node, acts[i].address) != (acts[k].node, acts[k].address);
        }
      }
      RecordConsistent(u, Name(a), a.node, a.address);
    } else {
      ReleaseConsistent(u, Name(a));
    }
  }

  lemma {:induction false} ExecSourced(st: State, acts: seq<Action>, ok: nat -> bool, k: nat)
    requires k <= |acts| && Consistent(st.used)
    requires FreshAddresses(st, acts) && NoReuse(st, acts) && DistinctNames(acts)
    ensures Sourced(st, acts, k, Exec(st, acts, ok, k).used) && Consistent(Exec(st, acts, ok, k).used)
  {
    hide Consistent, FreshAddresses, NoReuse, DistinctNames, Recorded, Released, Name;
    if k > 0 {
      ExecSourced(st, acts, ok, k - 1);
      SourcedStep(st, acts, k - 1, Exec(st, acts, ok, k - 1).used);
    }
  }

  /** The outcome in which only call `j` succeeds. */
  function Only(j: nat): nat -> bool { i => i == j }

  lemma {:induction false} ExecOnly(st: State, acts: seq<Action>, j: nat, k: nat)
    requires j < |acts| && k <= |acts|
    ensures Exec(st, acts, Only(j), k) == if k <= j then st else ExecAction(st, acts[j], true)
  {
    hide ExecAction;
    assert forall a :: ExecAction(st, a, false) == st by { FailedCall(st); }
    assert forall a :: ExecAction(ExecAction(st, acts[j], true), a, false) == ExecAction(st, acts[j], true) by {
      FailedCall(ExecAction(st, acts[j], true));
    }
    if k > 0 { ExecOnly(st, acts, j, k - 1); }
  }

  lemma FailedCall(st: State)
    ensures forall a :: ExecAction(st, a, false) == st
  {
  }

  /**
    * Whichever calls of a round fail, addresses stay exclusive, if and only if the plan gives no replica the
    * address that another replica of the plan still holds.
    */
  lemma RoundKeepsAddressesIff(st: State, now: nat)
    requires Consistent(st.used)
    ensures (forall ok: nat -> bool :: Consistent(Exec(st, PlanOf(st, now), ok, |PlanOf(st, now)|).used)) <==>
            NoReuse(st, PlanOf(st, now))
  {
    hide Consistent, FreshAddresses, DistinctNames, Recorded, Name, PlanOf;
    var acts := PlanOf(st, now);
    PlanIsFresh(st, now);
    if NoReuse(st, acts) {
      forall ok: nat -> bool ensures Consistent(Exec(st, acts, ok, |acts|).used) {
        ExecSourced(st, acts, ok, |acts|);
      }
    } else {
      var j, k :| 0 <= j < |acts| && 0 <= k < |acts| && j != k && acts[j].Schedule? && acts[k].Schedule?
                  && Name(acts[k]) in st.used.byJail
                  && st.used.byJail[Name(acts[k])] == (acts[j].node, acts[j].address);
      ExecOnly(st, acts, j, |acts|);
      assert Name(acts[j]) != Name(acts[k]) by { DistinctAt(acts, j, k); }
      RecordTakenBreaks(st.used, Name(acts[j]), acts[j].node, acts[j].address, Name(acts[k]));
      assert !Consistent(Exec(st, acts, Only(j), |acts|).used);
    }
  }

  lemma DistinctAt(acts: seq<Action>, j: nat, k: nat)
    requires DistinctNames(acts) && j < |acts| && k < |acts| && j != k
    ensures Name(acts[j]) != Name(acts[k])
  {
    if j < k { assert Name(acts[j]) != Name(acts[k]); } else { assert Name(acts[k]) != Name(acts[j]); }
  }

  /** Every recorded address belongs to a placed replica, on the node it is placed on. */
  ghost predicate Anchored(st: State) {
    forall j | j in st.used.byJail :: j in st.placements && st.placements[j] == st.used.byJail[j].0
  }

  /** In a state whose address entries follow the placements, no plan reuses an address. */
  lemma AnchoredPlansAreSafe(st: State, now: nat)
    requires Anchored(st)
    ensures NoReuse(st, PlanOf(st, now))
  {
    hide PlanOf, Present, ReplicaName, ReplicaIndex, Alive;
    PlanIsWell(st, now, Always);
    var acts := PlanOf(st, now);
    forall j, k | 0 <= j < |acts| && 0 <= k < |acts| && j != k && acts[j].Schedule? && acts[k].Schedule?
                  && Name(acts[k]) in st.used.byJail
      ensures st.used.byJail[Name(acts[k])] != (acts[j].node, acts[j].address)
    {
      assert Fits(st, now, acts[j]) && Fits(st, now, acts[k]);
      InPresent(st, acts[k].service, now, acts[k].index);
    }
  }
}
