/** Exactly when one round, every call succeeding, brings every service to its desired count. */
module Capacity {
  import opened Text
  import opened Environment
  import opened Subnet
  import opened Addresses
  import opened Registry
  import opened Services
  import opened Plan
  import opened Convergence
  import opened PlanAddresses

  // ---------- free addresses ----------

  /** The assignable addresses of a block. */
  function Hosts(c: Cidr): (r: set<u32>)
    ensures forall a: u32 :: a in r <==> Assignable(c, a)
  {
    BlockInRange(c);
    if FirstHost(c) + 1 <= LastHost(c) then Range(FirstHost(c) + 1, LastHost(c)) else {}
  }

  function Spare(st: State, u: Used, n: string): set<u32>
    requires n in st.nodes
  {
    Hosts(st.nodes[n].pod) - Taken(u, n)
  }

  lemma FreeIffSpare(st: State, u: Used, n: string)
    requires n in st.nodes
    ensures FirstFreeAddress(st.nodes[n].pod, n, u).None? <==> Spare(st, u, n) == {}
  {
    hide Assignable, FirstFreeAddress, Hosts;
    var c := st.nodes[n].pod;
    assert forall a: u32 | Assignable(c, a) && a !in Taken(u, n) :: a in Spare(st, u, n);
    assert forall a: u32 | a in Spare(st, u, n) :: Assignable(c, a);
  }

  // ---------- where the missing replicas of a service would go ----------

  /** The nodes to avoid once `k` replicas of the service have been given a node. */
  ghost function BusyAfter(st: State, now: nat, s: string, k: nat): set<string> {
    if k == 0 then Hosting(s, st.placements)
    else
      var busy := BusyAfter(st, now, s, k - 1);
      match Pick(st, now, busy)
      case None => busy
      case Some(n) => busy + {n}
  }

  /** How many of the first `k` missing replicas of the service fall to node `n`, going by headroom and spread alone. */
  ghost function Draws(st: State, now: nat, s: string, n: string, k: nat): nat {
    if k == 0 then 0
    else Draws(st, now, s, n, k - 1) + if Pick(st, now, BusyAfter(st, now, s, k - 1)) == Some(n) then 1 else 0
  }

  ghost function DemandIn(st: State, now: nat, order: seq<string>, n: string, k: nat): nat
    requires k <= |order| && forall s | s in order :: s in st.services
  {
    if k == 0 then 0
    else DemandIn(st, now, order, n, k - 1) + Draws(st, now, order[k - 1], n, Missing(st, order[k - 1], now))
  }

  // ---------- one addition ----------

  /** The replica about to be scheduled holds no address on an alive node. */
  lemma NothingToRelease(st: State, now: nat, s: string, index: nat, w: Work, n: string)
    requires s in st.services && Tracks(st, w) && Anchored(st) && index < TWO32 && index !in Present(st, s, now)
    requires !Schedules(w.actions, ReplicaName(s, index)) && Alive(st.nodes, n, now)
    ensures Taken(Released(w.used, ReplicaName(s, index)), n) == Taken(w.used, n)
  {
    hide Schedules, ReplicaName, Present, Alive, Assignable, Consistent;
    InPresent(st, s, now, index);
  }

  /** Giving an address away takes at most that one; in an exact account, exactly that one. */
  lemma AddTakesOne(st: State, now: nat, s: string, index: nat, w: Work, node: string, x: u32, n: string, exact: bool)
    requires s in st.services && index < TWO32 && index !in Present(st, s, now)
    requires exact ==> Tracks(st, w) && Anchored(st) && !Schedules(w.actions, ReplicaName(s, index))
    requires Alive(st.nodes, n, now) && node in st.nodes && x in Spare(st, w.used, node)
    ensures n in st.nodes
    ensures Accounts(|Spare(st, Recorded(w.used, ReplicaName(s, index), node, x), n)|, if node == n then 1 else 0, |Spare(st, w.used, n)|, exact)
  {
    hide Schedules, ReplicaName, Present, Tracks, Anchored, Hosts;
    var name := ReplicaName(s, index);
    if exact { NothingToRelease(st, now, s, index, w, n); }
    var before, after := Spare(st, w.used, n), Spare(st, Recorded(w.used, name, node, x), n);
    assert Taken(Released(w.used, name), n) <= Taken(w.used, n);
    if node == n {
      assert before - {x} <= after;
      SubsetSize(before - {x}, after);
      if exact { assert after == before - {x}; }
    } else {
      assert before <= after;
      SubsetSize(before, after);
      if exact { assert after == before; }
    }
  }

  /** What is left and what was drawn make up what there was: at least, and in an exact account exactly. */
  predicate Accounts(left: nat, drawn: nat, before: nat, exact: bool) {
    left + drawn >= before && (exact ==> left + drawn == before)
  }

  /** The next replica is scheduled when its node has an address left, and that leaves the others theirs. */
  ghost predicate NextDone(st: State, now: nat, w: Work, r: Work, exact: bool) {
    var pick := Pick(st, now, w.busy);
    && (pick.None? <==> forall n :: !Alive(st.nodes, n, now))
    && (pick.Some? ==> Alive(st.nodes, pick.value, now) && pick.value in st.nodes)
    && |r.actions| <= |w.actions| + 1
    && (|r.actions| == |w.actions| + 1 <==> pick.Some? && Spare(st, w.used, pick.value) != {})
    && (|r.actions| == |w.actions| + 1 ==>
          && r.busy == w.busy + {pick.value}
          && forall n | Alive(st.nodes, n, now) ::
               n in st.nodes && Accounts(|Spare(st, r.used, n)|, if pick.value == n then 1 else 0, |Spare(st, w.used, n)|, exact))
  }

  lemma AddIff(st: State, now: nat, s: string, index: nat, w: Work, exact: bool)
    requires s in st.services && index < TWO32 && index !in Present(st, s, now)
    requires exact ==> Tracks(st, w) && Anchored(st) && !Schedules(w.actions, ReplicaName(s, index))
    ensures NextDone(st, now, w, PlanAdd(st, now, s, index, w), exact)
  {
    hide Pick, PickStandby, FirstFreeAddress, Spare, Recorded, ReplicaName, Schedules, Tracks, Anchored, Present, Accounts;
    PickAlive(st, now, w.busy);
    var pick := Pick(st, now, w.busy);
    if pick.Some? {
      var node := pick.value;
      FreeIffSpare(st, w.used, node);
      var x := FirstFreeAddress(st.nodes[node].pod, node, w.used);
      if x.Some? {
        FreeIsSpare(st, w.used, node);
        forall n | Alive(st.nodes, n, now)
          ensures n in st.nodes
          ensures Accounts(|Spare(st, Recorded(w.used, ReplicaName(s, index), node, x.value), n)|, if node == n then 1 else 0, |Spare(st, w.used, n)|, exact)
        {
          AddTakesOne(st, now, s, index, w, node, x.value, n, exact);
        }
      }
    }
  }

  lemma FreeIsSpare(st: State, u: Used, n: string)
    requires n in st.nodes && FirstFreeAddress(st.nodes[n].pod, n, u).Some?
    ensures FirstFreeAddress(st.nodes[n].pod, n, u).value in Spare(st, u, n)
  {
    hide Assignable, FirstFreeAddress, Hosts;
  }

  // ---------- one service ----------

  /** Someone is alive, and every alive node has the addresses its share of `k` replicas takes. */
  ghost predicate Fitting(st: State, now: nat, s: string, u: Used, k: nat) {
    && (k > 0 ==> exists n :: Alive(st.nodes, n, now))
    && forall n | Alive(st.nodes, n, now) :: n in st.nodes && Draws(st, now, s, n, k) <= |Spare(st, u, n)|
  }

  /** What is left when `k` replicas have all been given their node and address. */
  ghost predicate Served(st: State, now: nat, s: string, u: Used, r: Work, k: nat, exact: bool) {
    && r.busy == BusyAfter(st, now, s, k)
    && forall n | Alive(st.nodes, n, now) ::
         n in st.nodes && Accounts(|Spare(st, r.used, n)|, Draws(st, now, s, n, k), |Spare(st, u, n)|, exact)
  }

  lemma StepFits(st: State, now: nat, s: string, u: Used, w: Work, r: Work, k: nat, exact: bool)
    requires Served(st, now, s, u, w, k, exact) && NextDone(st, now, w, r, exact)
    ensures Fitting(st, now, s, u, k + 1) ==> |r.actions| == |w.actions| + 1
    ensures |r.actions| == |w.actions| + 1 ==> (exact ==> Fitting(st, now, s, u, k + 1)) && Served(st, now, s, u, r, k + 1, exact)
  {
    hide Pick, Spare, Alive;
    var pick := Pick(st, now, w.busy);
    assert forall n :: Draws(st, now, s, n, k + 1) == Draws(st, now, s, n, k) + if pick == Some(n) then 1 else 0;
  }

  lemma {:induction false} AddsIff(st: State, now: nat, s: string, add: seq<nat>, w: Work, k: nat, exact: bool)
    requires s in st.services && k <= |add| && w.busy == Hosting(s, st.placements)
    requires exact ==> Tracks(st, w) && Anchored(st)
    requires forall j | 0 <= j < |w.actions| :: w.actions[j].service != s
    requires forall i, j | 0 <= i < j < |add| :: add[i] < add[j]
    requires |Present(st, s, now)| < st.services[s].desired || add == []
    requires forall i | 0 <= i < |add| :: add[i] < st.services[s].desired && add[i] !in Present(st, s, now)
    ensures var r := PlanAdds(st, now, s, add, w, k);
            && |r.actions| <= |w.actions| + k
            && (Fitting(st, now, s, w.used, k) ==> |r.actions| == |w.actions| + k)
            && (|r.actions| == |w.actions| + k ==> (exact ==> Fitting(st, now, s, w.used, k)) && Served(st, now, s, w.used, r, k, exact))
  {
    hide PlanAdd, Tracks, Present, ForService, ReplicaName, Pick, Spare, Fitting, Served, Anchored, Schedules, Accounts;
    if k > 0 {
      AddsIff(st, now, s, add, w, k - 1, exact);
      AddsShape(st, now, s, add, w, k - 1);
      var w1 := PlanAdds(st, now, s, add, w, k - 1);
      assert forall j | 0 <= j < |w.actions| :: w1.actions[j] == w.actions[j];
      NotYetScheduled(st, now, s, w1.actions, |w.actions|, add[..k - 1], add[k - 1]);
      if exact { AddsTrack(st, now, s, add, w, k - 1); }
      AddIff(st, now, s, add[k - 1], w1, exact);
      if |w1.actions| == |w.actions| + k - 1 {
        StepFits(st, now, s, w.used, w1, PlanAdd(st, now, s, add[k - 1], w1), k - 1, exact);
      } else {
        FitsLess(st, now, s, w.used, k - 1);
      }
    } else {
      NoneToFit(st, now, s, w, exact);
    }
  }

  lemma FitsLess(st: State, now: nat, s: string, u: Used, k: nat)
    requires !Fitting(st, now, s, u, k)
    ensures !Fitting(st, now, s, u, k + 1)
  {
    hide Pick, Spare, Alive;
    assert forall n :: Draws(st, now, s, n, k) <= Draws(st, now, s, n, k + 1);
  }

  lemma NoneToFit(st: State, now: nat, s: string, w: Work, exact: bool)
    requires w.busy == Hosting(s, st.placements)
    ensures Fitting(st, now, s, w.used, 0) && Served(st, now, s, w.used, w, 0, exact)
  {
    hide Spare;
  }

  lemma {:induction false} RemovesIff(st: State, now: nat, s: string, remove: seq<nat>, w: Work, k: nat)
    requires k <= |remove|
    ensures var r := PlanRemoves(st, now, s, remove, w, k);
            && r.used == w.used && |r.actions| <= |w.actions| + k
            && (|r.actions| == |w.actions| + k <==> forall i | 0 <= i < k :: Reachable(st, now, s, remove[i]))
  {
    hide ReplicaName, Alive;
    if k > 0 { RemovesIff(st, now, s, remove, w, k - 1); }
  }

  /** A service gets all it needs when its share fits every node and its excess can be reached; in an exact account, only then. */
  lemma ServiceIff(st: State, now: nat, s: string, w: Work, exact: bool)
    requires s in st.services && forall j | 0 <= j < |w.actions| :: w.actions[j].service != s
    requires exact ==> Tracks(st, w) && Anchored(st)
    ensures var r, m, g := PlanService(st, now, s, w), Missing(st, s, now), Gap(st, s, now);
            && |r.actions| <= |w.actions| + g
            && (Fitting(st, now, s, w.used, m) && ExcessReachable(st, s, now) ==> |r.actions| == |w.actions| + g)
            && (|r.actions| == |w.actions| + g ==>
                  && (exact ==> Fitting(st, now, s, w.used, m))
                  && ExcessReachable(st, s, now)
                  && forall n | Alive(st.nodes, n, now) ::
                       n in st.nodes && Accounts(|Spare(st, r.used, n)|, Draws(st, now, s, n, m), |Spare(st, w.used, n)|, exact))
  {
    hide Present, PlanAdds, PlanRemoves, Tracks, Anchored, Fitting, Spare, Alive, ReplicaName, Accounts;
    var desired, present := st.services[s].desired, Present(st, s, now);
    var (add, remove) := DiffReplicas(desired, present);
    DiffInRange(desired, present);
    var w0 := w.(busy := Hosting(s, st.placements));
    if exact { BusyIsFree(st, w, w0); }
    AddsIff(st, now, s, add, w0, |add|, exact);
    var w1 := PlanAdds(st, now, s, add, w0, |add|);
    RemovesIff(st, now, s, remove, w1, |remove|);
    assert ExcessReachable(st, s, now) <==> forall i | 0 <= i < |remove| :: Reachable(st, now, s, remove[i]);
  }

  // ---------- all services ----------

  function GapIn(st: State, now: nat, order: seq<string>, k: nat): nat
    requires k <= |order| && forall s | s in order :: s in st.services
  {
    if k == 0 then 0 else GapIn(st, now, order, k - 1) + Gap(st, order[k - 1], now)
  }

  /** The excess is reachable, someone is alive if anything is missing, and every alive node has the addresses that fall to it. */
  ghost predicate EnoughFor(st: State, now: nat, order: seq<string>, k: nat)
    requires k <= |order| && forall s | s in order :: s in st.services
  {
    && (forall i | 0 <= i < k :: ExcessReachable(st, order[i], now))
    && (MissingIn(st, now, order, k) > 0 ==> exists n :: Alive(st.nodes, n, now))
    && forall n | Alive(st.nodes, n, now) :: n in st.nodes && DemandIn(st, now, order, n, k) <= |Spare(st, st.used, n)|
  }

  /** The account over the first `k` services. */
  ghost predicate AllServed(st: State, now: nat, order: seq<string>, u: Used, k: nat, exact: bool)
    requires k <= |order| && forall s | s in order :: s in st.services
  {
    forall n | Alive(st.nodes, n, now) ::
      n in st.nodes && Accounts(|Spare(st, u, n)|, DemandIn(st, now, order, n, k), |Spare(st, st.used, n)|, exact)
  }

  lemma EnoughForOneMore(st: State, now: nat, order: seq<string>, k: nat, u: Used, exact: bool)
    requires k < |order| && forall s | s in order :: s in st.services
    requires AllServed(st, now, order, u, k, exact)
    ensures EnoughFor(st, now, order, k + 1) ==>
              Fitting(st, now, order[k], u, Missing(st, order[k], now)) && ExcessReachable(st, order[k], now)
    ensures exact && EnoughFor(st, now, order, k) ==>
              Fitting(st, now, order[k], u, Missing(st, order[k], now)) && ExcessReachable(st, order[k], now) ==>
              EnoughFor(st, now, order, k + 1)
  {
    hide Spare, Alive, ExcessReachable, Missing, Draws;
    assert forall n :: DemandIn(st, now, order, n, k + 1) == DemandIn(st, now, order, n, k) + Draws(st, now, order[k], n, Missing(st, order[k], now));
  }

  lemma ServedOneMore(st: State, now: nat, order: seq<string>, k: nat, u: Used, v: Used, exact: bool)
    requires k < |order| && forall s | s in order :: s in st.services
    requires AllServed(st, now, order, u, k, exact)
    requires var s := order[k];
             forall n | Alive(st.nodes, n, now) ::
               n in st.nodes && Accounts(|Spare(st, v, n)|, Draws(st, now, s, n, Missing(st, s, now)), |Spare(st, u, n)|, exact)
    ensures AllServed(st, now, order, v, k + 1, exact)
  {
    hide Spare, Alive, Missing, Draws;
    assert forall n :: DemandIn(st, now, order, n, k + 1) == DemandIn(st, now, order, n, k) + Draws(st, now, order[k], n, Missing(st, order[k], now));
  }

  lemma EnoughForLess(st: State, now: nat, order: seq<string>, k: nat)
    requires k < |order| && forall s | s in order :: s in st.services
    requires !EnoughFor(st, now, order, k)
    ensures !EnoughFor(st, now, order, k + 1)
  {
    hide Spare, Alive, ExcessReachable, Missing, Draws;
    assert forall n :: DemandIn(st, now, order, n, k) <= DemandIn(st, now, order, n, k + 1);
  }

  lemma {:induction false} ServicesIff(st: State, now: nat, order: seq<string>, k: nat, exact: bool)
    requires k <= |order| && forall s | s in order :: s in st.services
    requires forall i, j | 0 <= i < j < |order| :: order[i] != order[j]
    requires exact ==> Consistent(st.used) && Anchored(st)
    ensures var r, g := PlanServices(st, now, order, k), GapIn(st, now, order, k);
            && |r.actions| <= g
            && (EnoughFor(st, now, order, k) ==> |r.actions| == g)
            && (|r.actions| == g ==> (exact ==> EnoughFor(st, now, order, k)) && AllServed(st, now, order, r.used, k, exact))
  {
    hide PlanService, Tracks, Anchored, Consistent, Spare, Alive, ExcessReachable, EnoughFor, AllServed, Fitting, Gap, Missing,
         WellPlanned, Wins, Draws, Accounts;
    if k > 0 {
      ServicesIff(st, now, order, k - 1, exact);
      ServicesShape(st, now, order, k - 1, Always);
      var w, s := PlanServices(st, now, order, k - 1), order[k - 1];
      if exact { ServicesTrack(st, now, order, k - 1); }
      ServiceIff(st, now, s, w, exact);
      if |w.actions| == GapIn(st, now, order, k - 1) {
        var v := PlanServices(st, now, order, k);
        EnoughForOneMore(st, now, order, k - 1, w.used, exact);
        if |v.actions| == GapIn(st, now, order, k) { ServedOneMore(st, now, order, k - 1, w.used, v.used, exact); }
      } else {
        EnoughForLess(st, now, order, k - 1);
      }
    } else {
      NothingNeeded(st, now, order, exact);
    }
  }

  lemma NothingNeeded(st: State, now: nat, order: seq<string>, exact: bool)
    requires forall s | s in order :: s in st.services
    ensures EnoughFor(st, now, order, 0) && AllServed(st, now, order, st.used, 0, exact)
  {
    hide Spare;
  }

  /** A plan has as many actions as the services lack in all exactly when every service gets what it lacks. */
  lemma {:induction false} CountIsWins(st: State, now: nat, order: seq<string>, k: nat)
    requires k <= |order| && forall s | s in order :: s in st.services
    requires forall i, j | 0 <= i < j < |order| :: order[i] != order[j]
    ensures var acts := PlanServices(st, now, order, k).actions;
            && |acts| <= GapIn(st, now, order, k)
            && (|acts| == GapIn(st, now, order, k) <==> forall s | s in order[..k] :: Wins(acts, Always, s, |acts|) == Gap(st, s, now))
  {
    hide PlanService, Gap, ForService, WellPlanned, Wins;
    if k > 0 {
      CountIsWins(st, now, order, k - 1);
      ServicesShape(st, now, order, k - 1, Always);
      var s, w := order[k - 1], PlanServices(st, now, order, k - 1);
      var acts := PlanServices(st, now, order, k).actions;
      var pool := ServiceShape(st, now, s, w);
      SegmentWins(st, now, s, w.actions, acts, pool);
      assert order[..k] == order[..k - 1] + [s];
      assert s in order[..k];
      assert forall t | t in order[..k - 1] :: t in order[..k] && t != s;
    }
  }

  lemma SegmentWins(st: State, now: nat, s: string, old': seq<Action>, acts: seq<Action>, pool: seq<nat>)
    requires old' <= acts && forall j | 0 <= j < |old'| :: old'[j].service != s
    requires ForService(st, now, s, acts, |old'|, pool)
    ensures Wins(acts, Always, s, |acts|) == |acts| - |old'|
    ensures forall t | t != s :: Wins(acts, Always, t, |acts|) == Wins(old', Always, t, |old'|)
  {
    hide Fits;
    var ok := Always;
    assert forall j | 0 <= j < |old'| :: acts[j] == old'[j];
    WinsOfOthers(acts, ok, s, |old'|);
    WinsOfSegment(acts, ok, s, s, |old'|, |acts|);
    forall t | t != s ensures Wins(acts, ok, t, |acts|) == Wins(old', ok, t, |old'|) {
      WinsOfSegment(acts, ok, s, t, |old'|, |acts|);
      WinsOfPrefix(old', acts, ok, t, |old'|);
    }
  }

  /** Room for a whole round. */
  ghost predicate Enough(st: State, now: nat) {
    var order := SortedKeys(st.services.Keys);
    EnoughFor(st, now, order, |order|)
  }

  /** Every service has its desired count after a round in which every call succeeds. */
  ghost predicate Converges(st: State, now: nat) {
    var acts := PlanOf(st, now);
    var after := Exec(st, acts, Always, |acts|);
    after.services == st.services && forall s | s in st.services :: |Present(after, s, now)| == st.services[s].desired
  }

  lemma ConvergesIffServed(st: State, now: nat)
    ensures var order := SortedKeys(st.services.Keys);
            Converges(st, now) <==> |PlanOf(st, now)| == GapIn(st, now, order, |order|)
  {
    hide Present, PlanServices, Wins;
    var order := SortedKeys(st.services.Keys);
    forall i, j | 0 <= i < j < |order| ensures order[i] != order[j] { LessTotal(order[i], order[j]); }
    CountIsWins(st, now, order, |order|);
    assert order[..|order|] == order;
    var acts, ok := PlanOf(st, now), Always;
    var after := Exec(st, acts, ok, |acts|);
    ExecKeeps(st, acts, ok, |acts|);
    forall s | s in st.services
      ensures |Present(after, s, now)| == st.services[s].desired <==> Wins(acts, ok, s, |acts|) == Gap(st, s, now)
    {
      NeverOvershoots(st, now, ok, s);
    }
  }

  /**
    * In any state: if the excess is reachable and every alive node has the addresses that headroom and spread assign to
    * it, one round in which every call succeeds gives every service its desired count, and the next plan is empty.
    */
  lemma OneRoundConverges(st: State, now: nat)
    requires Enough(st, now)
    ensures Converges(st, now)
    ensures var acts := PlanOf(st, now); PlanOf(Exec(st, acts, Always, |acts|), now) == []
  {
    hide Present, PlanServices, EnoughFor, GapIn, AllServed;
    var order := SortedKeys(st.services.Keys);
    forall i, j | 0 <= i < j < |order| ensures order[i] != order[j] { LessTotal(order[i], order[j]); }
    ServicesIff(st, now, order, |order|, false);
    ConvergesIffServed(st, now);
    var acts := PlanOf(st, now);
    QuietPlan(Exec(st, acts, Always, |acts|), now, order, |order|);
  }

  /** In a state whose address entries follow the placements, it does so only then. */
  lemma OneRoundConvergesIff(st: State, now: nat)
    requires Consistent(st.used) && Anchored(st)
    ensures Converges(st, now) <==> Enough(st, now)
  {
    hide PlanServices, EnoughFor, GapIn, AllServed, Consistent, Anchored, Converges;
    var order := SortedKeys(st.services.Keys);
    forall i, j | 0 <= i < j < |order| ensures order[i] != order[j] { LessTotal(order[i], order[j]); }
    ServicesIff(st, now, order, |order|, true);
    ConvergesIffServed(st, now);
  }

  // ---------- a simple sufficient condition ----------

  lemma {:induction false} DrawsAtMost(st: State, now: nat, s: string, n: string, k: nat)
    ensures Draws(st, now, s, n, k) <= k
  {
    hide Pick;
    if k > 0 { DrawsAtMost(st, now, s, n, k - 1); }
  }

  lemma {:induction false} DemandAtMost(st: State, now: nat, order: seq<string>, n: string, k: nat)
    requires k <= |order| && forall s | s in order :: s in st.services
    ensures DemandIn(st, now, order, n, k) <= MissingIn(st, now, order, k)
  {
    hide Draws, Missing;
    if k > 0 {
      DemandAtMost(st, now, order, n, k - 1);
      DrawsAtMost(st, now, order[k - 1], n, Missing(st, order[k - 1], now));
    }
  }

  /** Whatever the scores: an alive node, reachable excess, and on each alive node as many addresses as replicas are missing. */
  lemma RoomIsEnough(st: State, now: nat)
    requires exists n :: Alive(st.nodes, n, now)
    requires forall n | Alive(st.nodes, n, now) :: n in st.nodes && |Spare(st, st.used, n)| >= TotalMissing(st, now)
    requires forall s | s in st.services :: ExcessReachable(st, s, now)
    ensures Enough(st, now)
  {
    hide Spare, Alive, ExcessReachable, DemandIn, MissingIn;
    var order := SortedKeys(st.services.Keys);
    forall n ensures DemandIn(st, now, order, n, |order|) <= MissingIn(st, now, order, |order|) {
      DemandAtMost(st, now, order, n, |order|);
    }
  }
}
