/** What a reconcile round does to every service's replica count, with any subset of its calls failing. */
module Convergence {
  import opened Text
  import opened Environment
  import opened Subnet
  import opened Addresses
  import opened Registry
  import opened Services
  import opened Plan

  // ---------- the shape of a plan ----------

  /** How far a service is from its desired number of replicas. */
  function Gap(st: State, s: string, now: nat): nat
    requires s in st.services
  {
    var have, want := |Present(st, s, now)|, st.services[s].desired;
    if have < want then want - have else have - want
  }

  /** An action serves its service: it adds a missing index in range, or removes a present one, on an alive node. */
  ghost predicate Fits(st: State, now: nat, a: Action) {
    && a.service in st.services
    && Alive(st.nodes, a.node, now)
    && (a.Schedule? ==>
          && |Present(st, a.service, now)| < st.services[a.service].desired
          && a.index < st.services[a.service].desired
          && a.index !in Present(st, a.service, now))
    && (a.TearDown? ==>
          && |Present(st, a.service, now)| > st.services[a.service].desired
          && a.index in Present(st, a.service, now)
          && Name(a) in st.placements && st.placements[Name(a)] == a.node)
  }

  /** Every action fits and no replica is named twice. */
  ghost predicate WellPlanned(st: State, now: nat, acts: seq<Action>) {
    && (forall k | 0 <= k < |acts| :: Fits(st, now, acts[k]))
    && (forall j, k | 0 <= j < k < |acts| :: acts[j].service == acts[k].service ==> acts[j].index != acts[k].index)
  }

  /** The actions from position `from` on belong to `s`, fit, and have distinct indices drawn from `pool`. */
  ghost predicate ForService(st: State, now: nat, s: string, acts: seq<Action>, from: nat, pool: seq<nat>) {
    forall k | from <= k < |acts| ::
      && acts[k].service == s && Fits(st, now, acts[k]) && acts[k].index in pool
      && forall j | from <= j < k :: acts[j].index != acts[k].index
  }

  /** One more index considered: either skipped, or one fitting action appended. */
  lemma GrowSegment(st: State, now: nat, s: string, old': seq<Action>, new': seq<Action>, from: nat, pool: seq<nat>, index: nat)
    requires from <= |old'| && ForService(st, now, s, old', from, pool) && index !in pool
    requires new' == old' ||
             exists a: Action :: a.service == s && a.index == index && Fits(st, now, a) && new' == old' + [a]
    ensures ForService(st, now, s, new', from, pool + [index]) && old' <= new' && |new'| <= |old'| + 1
  {
  }

  lemma PlanAddShape(st: State, now: nat, s: string, index: nat, w: Work)
    requires s in st.services
    ensures var r := PlanAdd(st, now, s, index, w);
            || r == w
            || exists a: Action :: && a.Schedule? && a.service == s && a.index == index && Alive(st.nodes, a.node, now)
                           && r.actions == w.actions + [a]
  {
    PickAlive(st, now, w.busy);
  }

  lemma {:induction false} AddsShape(st: State, now: nat, s: string, add: seq<nat>, w: Work, k: nat)
    requires s in st.services && k <= |add|
    requires forall i, j | 0 <= i < j < |add| :: add[i] < add[j]
    requires |Present(st, s, now)| < st.services[s].desired || add == []
    requires forall i | 0 <= i < |add| :: add[i] < st.services[s].desired && add[i] !in Present(st, s, now)
    ensures var r := PlanAdds(st, now, s, add, w, k).actions;
            w.actions <= r && |r| <= |w.actions| + k && ForService(st, now, s, r, |w.actions|, add[..k])
  {
    hide PlanAdd, Present, ReplicaName, Alive;
    if k > 0 {
      AddsShape(st, now, s, add, w, k - 1);
      var w1 := PlanAdds(st, now, s, add, w, k - 1);
      PlanAddShape(st, now, s, add[k - 1], w1);
      GrowSegment(st, now, s, w1.actions, PlanAdd(st, now, s, add[k - 1], w1).actions, |w.actions|, add[..k - 1], add[k - 1]);
      assert add[..k] == add[..k - 1] + [add[k - 1]];
    }
  }

  lemma {:induction false} RemovesShape(st: State, now: nat, s: string, remove: seq<nat>, w: Work, k: nat)
    requires s in st.services && k <= |remove|
    requires forall i, j | 0 <= i < j < |remove| :: remove[i] > remove[j]
    requires |Present(st, s, now)| > st.services[s].desired || remove == []
    requires forall i | 0 <= i < |remove| :: remove[i] in Present(st, s, now)
    ensures var r := PlanRemoves(st, now, s, remove, w, k).actions;
            w.actions <= r && |r| <= |w.actions| + k && ForService(st, now, s, r, |w.actions|, remove[..k])
  {
    hide Present, ReplicaIndex, ReplicaName;
    if k > 0 {
      RemovesShape(st, now, s, remove, w, k - 1);
      var w1 := PlanRemoves(st, now, s, remove, w, k - 1);
      GrowSegment(st, now, s, w1.actions, PlanRemove(st, now, s, remove[k - 1], w1).actions, |w.actions|, remove[..k - 1], remove[k - 1]);
      assert remove[..k] == remove[..k - 1] + [remove[k - 1]];
    }
  }

  lemma ServiceShape(st: State, now: nat, s: string, w: Work) returns (pool: seq<nat>)
    requires s in st.services
    ensures var r := PlanService(st, now, s, w).actions;
            && w.actions <= r && |r| <= |w.actions| + Gap(st, s, now)
            && ForService(st, now, s, r, |w.actions|, pool)
  {
    var present, desired := Present(st, s, now), st.services[s].desired;
    var (add, remove) := DiffReplicas(desired, present);
    DiffInRange(desired, present);
    var w0 := w.(busy := Hosting(s, st.placements));
    AddsShape(st, now, s, add, w0, |add|);
    var w1 := PlanAdds(st, now, s, add, w0, |add|);
    RemovesShape(st, now, s, remove, w1, |remove|);
    if add == [] {
      pool := remove[..|remove|];
    } else {
      pool := add[..|add|];
    }
  }

  /** How many of the first `k` actions concern `s` and succeed. */
  function Wins(acts: seq<Action>, ok: nat -> bool, s: string, k: nat): nat
    requires k <= |acts|
  {
    if k == 0 then 0
    else Wins(acts, ok, s, k - 1) + if acts[k - 1].service == s && ok(k - 1) then 1 else 0
  }

  /** Actions from `from` on that all belong to `s` add at most (with every call succeeding: exactly) their number. */
  lemma {:induction false} WinsOfSegment(acts: seq<Action>, ok: nat -> bool, s: string, t: string, from: nat, k: nat)
    requires from <= k <= |acts|
    requires forall j | from <= j < k :: acts[j].service == s
    ensures t != s ==> Wins(acts, ok, t, k) == Wins(acts, ok, t, from)
    ensures Wins(acts, ok, s, from) <= Wins(acts, ok, s, k) <= Wins(acts, ok, s, from) + (k - from)
    ensures (forall j | 0 <= j < |acts| :: ok(j)) ==> Wins(acts, ok, s, k) == Wins(acts, ok, s, from) + (k - from)
    decreases k
  {
    if k > from { WinsOfSegment(acts, ok, s, t, from, k - 1); }
  }

  lemma {:induction false} WinsOfOthers(acts: seq<Action>, ok: nat -> bool, s: string, k: nat)
    requires k <= |acts| && forall j | 0 <= j < k :: acts[j].service != s
    ensures Wins(acts, ok, s, k) == 0
  {
    if k > 0 { WinsOfOthers(acts, ok, s, k - 1); }
  }

  lemma {:induction false} WinsOfPrefix(acts: seq<Action>, more: seq<Action>, ok: nat -> bool, s: string, k: nat)
    requires acts <= more && k <= |acts|
    ensures Wins(acts, ok, s, k) == Wins(more, ok, s, k)
  {
    if k > 0 { WinsOfPrefix(acts, more, ok, s, k - 1); }
  }

  /** Appending one service's actions to a plan for other services. */
  lemma AppendService(st: State, now: nat, s: string, old': seq<Action>, acts: seq<Action>, pool: seq<nat>, ok: nat -> bool)
    requires s in st.services && WellPlanned(st, now, old') && old' <= acts
    requires forall j | 0 <= j < |old'| :: old'[j].service != s
    requires forall t | t in st.services :: Wins(old', ok, t, |old'|) <= Gap(st, t, now)
    requires ForService(st, now, s, acts, |old'|, pool) && |acts| <= |old'| + Gap(st, s, now)
    ensures WellPlanned(st, now, acts)
    ensures forall t | t in st.services :: Wins(acts, ok, t, |acts|) <= Gap(st, t, now)
  {
    assert forall j | 0 <= j < |old'| :: acts[j] == old'[j];
    forall t | t in st.services ensures Wins(acts, ok, t, |acts|) <= Gap(st, t, now) {
      WinsOfSegment(acts, ok, s, t, |old'|, |acts|);
      WinsOfPrefix(old', acts, ok, t, |old'|);
      if t == s { WinsOfOthers(acts, ok, s, |old'|); }
    }
  }

  /** A plan over the first `k` services is well planned, and no service gets more actions than its gap. */
  lemma {:induction false} ServicesShape(st: State, now: nat, order: seq<string>, k: nat, ok: nat -> bool)
    requires k <= |order| && forall s | s in order :: s in st.services
    requires forall i, j | 0 <= i < j < |order| :: order[i] != order[j]
    ensures var acts := PlanServices(st, now, order, k).actions;
            && WellPlanned(st, now, acts)
            && (forall j | 0 <= j < |acts| :: acts[j].service in order[..k])
            && (forall s | s in st.services :: Wins(acts, ok, s, |acts|) <= Gap(st, s, now))
  {
    hide PlanService, Fits, Present, ForService;
    if k > 0 {
      ServicesShape(st, now, order, k - 1, ok);
      var s, w := order[k - 1], PlanServices(st, now, order, k - 1);
      var pool := ServiceShape(st, now, s, w);
      var acts := PlanServices(st, now, order, k).actions;
      assert order[..k] == order[..k - 1] + [s];
      AppendService(st, now, s, w.actions, acts, pool, ok);
      assert forall j | 0 <= j < |w.actions| :: acts[j] == w.actions[j];
    }
  }

  /** The plan of every pass is well planned: each scheduled index is absent and in range, each replica named once. */
  lemma PlanIsWell(st: State, now: nat, ok: nat -> bool)
    ensures var acts := PlanOf(st, now);
            && WellPlanned(st, now, acts)
            && (forall s | s in st.services :: Wins(acts, ok, s, |acts|) <= Gap(st, s, now))
  {
    var order := SortedKeys(st.services.Keys);
    forall i, j | 0 <= i < j < |order| ensures order[i] != order[j] { LessTotal(order[i], order[j]); }
    ServicesShape(st, now, order, |order|, ok);
  }

  // ---------- the effect of executing it ----------

  lemma {:induction false} ExecKeeps(st: State, acts: seq<Action>, ok: nat -> bool, k: nat)
    requires k <= |acts|
    ensures var r := Exec(st, acts, ok, k);
            r.nodes == st.nodes && r.services == st.services && r.fences == st.fences
  {
    if k > 0 { ExecKeeps(st, acts, ok, k - 1); }
  }

  lemma ActionPresent(st: State, now: nat, a: Action, t: string)
    requires a.service in st.services && t in st.services && a.index < TWO32
    requires a.Schedule? ==> Alive(st.nodes, a.node, now)
    ensures var p, q := Present(st, t, now), Present(ExecAction(st, a, true), t, now);
            q == if t != a.service then p else if a.Schedule? then p + {a.index} else p - {a.index}
  {
    var st' := ExecAction(st, a, true);
    forall i: nat
      ensures i in Present(st', t, now) <==>
              if t == a.service && i == a.index then a.Schedule? else i in Present(st, t, now)
    {
      InPresent(st, t, now, i);
      InPresent(st', t, now, i);
      if ReplicaName(t, i) == Name(a) { ReplicaNameInjective(t, i, a.service, a.index); }
    }
  }

  /** The signed change of a service's count after `n` successes of its actions. */
  function Moved(st: State, s: string, now: nat, n: nat): int
    requires s in st.services
  {
    var have := |Present(st, s, now)|;
    if have < st.services[s].desired then have + n else have - n
  }

  /** Later actions of a plan still see their index as it was when the plan was made. */
  ghost predicate StillFits(r: State, now: nat, acts: seq<Action>, k: nat)
    requires k <= |acts|
  {
    forall j | k <= j < |acts| ::
      acts[j].service in r.services && (acts[j].Schedule? <==> acts[j].index !in Present(r, acts[j].service, now))
  }

  lemma StillFitsAfter(r: State, now: nat, acts: seq<Action>, k: nat)
    requires k < |acts| && StillFits(r, now, acts, k) && acts[k].index < TWO32
    requires acts[k].Schedule? ==> Alive(r.nodes, acts[k].node, now)
    requires forall j | k < j < |acts| :: acts[k].service == acts[j].service ==> acts[k].index != acts[j].index
    ensures StillFits(ExecAction(r, acts[k], true), now, acts, k + 1)
  {
    forall j | k < j < |acts|
      ensures acts[j].Schedule? <==> acts[j].index !in Present(ExecAction(r, acts[k], true), acts[j].service, now)
    {
      ActionPresent(r, now, acts[k], acts[j].service);
    }
  }

  lemma {:induction false} FitsAfter(st: State, now: nat, acts: seq<Action>, ok: nat -> bool, k: nat)
    requires WellPlanned(st, now, acts) && k <= |acts|
    ensures StillFits(Exec(st, acts, ok, k), now, acts, k)
  {
    hide ReplicaName, ReplicaIndex, Recorded, Released, Present;
    if k > 0 {
      FitsAfter(st, now, acts, ok, k - 1);
      ExecKeeps(st, acts, ok, k - 1);
      var a := acts[k - 1];
      assert Fits(st, now, a);
      InPresent(st, a.service, now, a.index);
      if ok(k - 1) { StillFitsAfter(Exec(st, acts, ok, k - 1), now, acts, k - 1); }
    }
  }

  lemma {:induction false} CountAfter(st: State, now: nat, acts: seq<Action>, ok: nat -> bool, k: nat, s: string)
    requires WellPlanned(st, now, acts) && k <= |acts| && s in st.services
    ensures var r := Exec(st, acts, ok, k);
            s in r.services && |Present(r, s, now)| == Moved(st, s, now, Wins(acts, ok, s, k))
  {
    hide ReplicaName, ReplicaIndex, Recorded, Released, Present;
    ExecKeeps(st, acts, ok, k);
    if k > 0 {
      CountAfter(st, now, acts, ok, k - 1, s);
      FitsAfter(st, now, acts, ok, k - 1);
      ExecKeeps(st, acts, ok, k - 1);
      var r, a := Exec(st, acts, ok, k - 1), acts[k - 1];
      assert Fits(st, now, a);
      InPresent(st, a.service, now, a.index);
      if ok(k - 1) { ActionPresent(r, now, a, s); }
    }
  }

  /** Whichever calls succeed, a round moves every service towards its desired count by exactly its successes and never past it. */
  lemma NeverOvershoots(st: State, now: nat, ok: nat -> bool, s: string)
    requires s in st.services
    ensures var acts := PlanOf(st, now);
            var after := Exec(st, acts, ok, |acts|);
            var wins := Wins(acts, ok, s, |acts|);
            && s in after.services && after.services[s] == st.services[s]
            && Gap(after, s, now) == Gap(st, s, now) - wins
            && (|Present(st, s, now)| <= st.services[s].desired ==> |Present(after, s, now)| <= st.services[s].desired)
            && (|Present(st, s, now)| >= st.services[s].desired ==> |Present(after, s, now)| >= st.services[s].desired)
  {
    var acts := PlanOf(st, now);
    PlanIsWell(st, now, ok);
    CountAfter(st, now, acts, ok, |acts|, s);
    ExecKeeps(st, acts, ok, |acts|);
  }

  // ---------- what is missing and what is in excess ----------

  function Missing(st: State, s: string, now: nat): nat
    requires s in st.services
  {
    var have, want := |Present(st, s, now)|, st.services[s].desired;
    if have < want then want - have else 0
  }

  function MissingIn(st: State, now: nat, order: seq<string>, k: nat): nat
    requires k <= |order| && forall s | s in order :: s in st.services
  {
    if k == 0 then 0 else MissingIn(st, now, order, k - 1) + Missing(st, order[k - 1], now)
  }

  predicate Reachable(st: State, now: nat, s: string, i: nat) {
    var jail := ReplicaName(s, i);
    jail in st.placements && Alive(st.nodes, st.placements[jail], now)
  }

  /** The excess replicas of a service are on alive nodes. */
  ghost predicate ExcessReachable(st: State, s: string, now: nat)
    requires s in st.services
  {
    forall i | i in DiffReplicas(st.services[s].desired, Present(st, s, now)).1 :: Reachable(st, now, s, i)
  }

  /** The number of replicas missing over all services. */
  ghost function TotalMissing(st: State, now: nat): nat {
    var order := SortedKeys(st.services.Keys);
    MissingIn(st, now, order, |order|)
  }

  lemma {:induction false} QuietPlan(st: State, now: nat, order: seq<string>, k: nat)
    requires k <= |order| && forall s | s in order :: s in st.services && |Present(st, s, now)| == st.services[s].desired
    ensures PlanServices(st, now, order, k).actions == []
  {
    hide Present, Hosting;
    if k > 0 { QuietPlan(st, now, order, k - 1); }
  }
}
