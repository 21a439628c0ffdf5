/** Which replicas a round starts, replaces and stops, told from the placements and heartbeats alone. */
module Replacement {
  import opened Text
  import opened Environment
  import opened Subnet
  import opened Addresses
  import opened Registry
  import opened Services
  import opened Plan
  import opened Convergence
  import opened PlanAddresses
  import opened Capacity
  import opened Protocol
  import opened SingleHolder

  // ---------- living replicas ----------

  /** The placed replicas of a service; without volumes, only those on a node heard of less than 15 s ago. */
  function Living(st: State, s: string, now: nat): set<string>
    requires s in st.services
  {
    set j | j in st.placements && ReplicaIndex(s, j).Some? &&
            (st.services[s].template.volumes == [] ==>
               st.placements[j] in st.nodes && Elapsed(now, st.nodes[st.placements[j]].lastHeartbeat) < Seconds(15))
  }

  /** Living replicas with a higher index. */
  function Above(st: State, s: string, now: nat, i: nat): set<string>
    requires s in st.services
  {
    set j | j in Living(st, s, now) && ReplicaIndex(s, j).value > i
  }

  function Indices(s: string, names: set<string>): set<nat>
    requires forall j | j in names :: ReplicaIndex(s, j).Some?
  {
    set j | j in names :: ReplicaIndex(s, j).value
  }

  lemma {:induction false} IndicesSize(s: string, names: set<string>)
    requires forall j | j in names :: ReplicaIndex(s, j).Some?
    ensures |Indices(s, names)| == |names|
    decreases |names|
  {
    hide ReplicaIndex, ReplicaName;
    if names != {} {
      var j :| j in names;
      var rest, i := names - {j}, ReplicaIndex(s, j).value;
      IndicesSize(s, rest);
      forall k | k in rest ensures ReplicaIndex(s, k).value != i {
        ReplicaIndexIff(s, j, i);
        ReplicaIndexIff(s, k, ReplicaIndex(s, k).value);
      }
      assert Indices(s, names) == Indices(s, rest) + {i};
    }
  }

  /** The indices a pass counts as present are those of the living replicas. */
  lemma PresentIsLiving(st: State, s: string, now: nat)
    requires s in st.services
    ensures Present(st, s, now) == Indices(s, Living(st, s, now)) && |Present(st, s, now)| == |Living(st, s, now)|
  {
    hide ReplicaIndex;
    IndicesSize(s, Living(st, s, now));
  }

  function Over(p: set<nat>, i: nat): set<nat> {
    set m | m in p && m > i
  }

  lemma AboveSize(st: State, s: string, now: nat, i: nat)
    requires s in st.services
    ensures |Over(Present(st, s, now), i)| == |Above(st, s, now, i)|
  {
    hide ReplicaIndex, Present, Living;
    PresentIsLiving(st, s, now);
    InLiving(st, s, now);
    IndicesSize(s, Above(st, s, now, i));
    assert Over(Present(st, s, now), i) == Indices(s, Above(st, s, now, i));
  }

  lemma InLiving(st: State, s: string, now: nat)
    requires s in st.services
    ensures forall j | j in Living(st, s, now) :: ReplicaIndex(s, j).Some?
  {
  }

  lemma LivesAt(st: State, s: string, now: nat, i: nat)
    requires s in st.services && i < TWO32
    ensures i in Present(st, s, now) <==> ReplicaName(s, i) in Living(st, s, now)
  {
    hide ReplicaIndex, ReplicaName;
    InPresent(st, s, now, i);
    ReplicaIndexIff(s, ReplicaName(s, i), i);
  }

  // ---------- the counts after a round ----------

  lemma ConvergesIsLiving(st: State, now: nat)
    ensures var acts := PlanOf(st, now);
            var after := Exec(st, acts, Always, |acts|);
            Converges(st, now) <==> after.services == st.services && forall s | s in st.services :: |Living(after, s, now)| == st.services[s].desired
  {
    hide Present, PlanOf, Exec, Living;
    var acts := PlanOf(st, now);
    var after := Exec(st, acts, Always, |acts|);
    if after.services == st.services {
      forall s | s in st.services ensures |Present(after, s, now)| == |Living(after, s, now)| { PresentIsLiving(after, s, now); }
    }
  }

  /** With the room it takes, a round in which every call succeeds leaves every service exactly its desired living replicas. */
  lemma RoundServesAll(st: State, now: nat)
    requires Enough(st, now)
    ensures var after := Reconciled(st, now, Always);
            && after.services == st.services && after.nodes == st.nodes
            && forall s | s in st.services :: |Living(after, s, now)| == st.services[s].desired
  {
    hide Living, Converges, Enough, PlanOf;
    OneRoundConverges(st, now);
    ConvergesIsLiving(st, now);
    ReconciledServices(st, now, Always);
  }

  /** And where address entries follow the placements, it takes that room. */
  lemma RoundServesAllIff(st: State, now: nat)
    requires Consistent(st.used) && Anchored(st)
    ensures (forall s | s in st.services :: s in Reconciled(st, now, Always).services && |Living(Reconciled(st, now, Always), s, now)| == st.services[s].desired)
            <==> Enough(st, now)
  {
    hide Living, Converges, Enough, PlanOf, Consistent, Anchored;
    OneRoundConvergesIff(st, now);
    ConvergesIsLiving(st, now);
    ReconciledServices(st, now, Always);
  }

  lemma LivingOf(a: State, b: State, s: string, now: nat)
    requires s in a.services && a.services == b.services && a.nodes == b.nodes && a.placements == b.placements
    ensures Living(a, s, now) == Living(b, s, now)
  {
  }

  /** An accepted service, with room for it, ends with the count it asked for; so does every other. */
  lemma ApplyServes(cfg: Config, st: State, name: string, desired: u32, template: Template, port: nat, now: nat)
    requires var r := ServiceApplied(st, cfg.service, name, desired, template, port);
             r.Applied? && Enough(st.(services := r.services), now)
    ensures var after := Next(cfg, st, ApplyService(name, desired, template, port, now, Always));
            && name in after.services && after.services[name].desired == desired
            && after.services.Keys == st.services.Keys + {name}
            && forall s | s in after.services :: |Living(after, s, now)| == after.services[s].desired
  {
    hide Living, Enough, Reconciled, Conflict, ApplyTo;
    var r := ServiceApplied(st, cfg.service, name, desired, template, port);
    ApplyUpdates(st.services, cfg.service, name, desired, template, port);
    RoundServesAll(st.(services := r.services), now);
  }

  /** So does every service at any known node's heartbeat. */
  lemma HeartbeatServes(cfg: Config, st: State, id: string, cpu: real, memory: nat, running: map<string, bool>, now: nat, done: set<string>)
    requires id in st.nodes && Enough(st.(nodes := Beaten(st.nodes, id, cpu, memory, running, now)), now)
    ensures var after := Next(cfg, st, Heartbeat(id, cpu, memory, running, now, Always, done));
            && after.services == st.services
            && forall s | s in after.services :: |Living(after, s, now)| == after.services[s].desired
  {
    hide Living, Enough, Reconciled, Beaten, Fenced;
    var st1 := st.(nodes := Beaten(st.nodes, id, cpu, memory, running, now));
    var st2 := Reconciled(st1, now, Always);
    RoundServesAll(st1, now);
    FencedServices(st2, id, now, done);
    forall s | s in st.services ensures |Living(Fenced(st2, id, now, done), s, now)| == st.services[s].desired {
      LivingOf(Fenced(st2, id, now, done), st2, s, now);
    }
  }

  // ---------- which indices are added and removed ----------

  function Between(p: set<nat>, from: nat, x: nat): set<nat> {
    set m | m in p && from <= m < x
  }

  lemma {:induction false} BetweenAtMost(p: set<nat>, from: nat, x: nat)
    requires from <= x
    ensures |Between(p, from, x)| <= x - from
    decreases x - from
  {
    if from < x {
      BetweenAtMost(p, from, x - 1);
      SubsetSize(Between(p, from, x), Between(p, from, x - 1) + {x - 1});
    } else {
      assert Between(p, from, x) == {};
    }
  }

  lemma BetweenNext(p: set<nat>, from: nat, x: nat)
    requires from < x
    ensures |Between(p, from, x)| == |Between(p, from + 1, x)| + if from in p then 1 else 0
  {
    if from in p {
      assert Between(p, from, x) == Between(p, from + 1, x) + {from};
    } else {
      assert Between(p, from, x) == Between(p, from + 1, x);
    }
  }

  lemma {:induction false} LowestMissingIff(p: set<nat>, from: nat, count: nat, x: nat)
    ensures x in LowestMissing(p, from, count) <==> x >= from && x !in p && x - from < count + |Between(p, from, x)|
    decreases count, |AtLeast(p, from)|
  {
    if count == 0 {
      if x >= from { BetweenAtMost(p, from, x); }
    } else if from in p {
      assert AtLeast(p, from) == AtLeast(p, from + 1) + {from};
      LowestMissingIff(p, from + 1, count, x);
      if x > from { BetweenNext(p, from, x); }
    } else {
      assert AtLeast(p, from) == AtLeast(p, from + 1);
      LowestMissingIff(p, from + 1, count - 1, x);
      if x > from { BetweenNext(p, from, x); } else { assert x < from || Between(p, from, x) == {}; }
    }
  }

  lemma {:induction false} HighestIff(p: set<nat>, count: nat, i: nat)
    requires count <= |p|
    ensures i in Highest(p, count) <==> i in p && |Over(p, i)| < count
  {
    if count > 0 {
      var m := Max(p);
      HighestIff(p - {m}, count - 1, i);
      if i == m {
        assert Over(p, i) == {};
      } else if i in p {
        assert Over(p, i) == Over(p - {m}, i) + {m};
      }
    }
  }

  /** An index is to be added when it is missing and it and those above it are within the count; removed when in excess from the top. */
  lemma DiffIff(desired: nat, p: set<nat>, i: nat)
    ensures var (add, remove) := DiffReplicas(desired, p);
            && (i in add <==> i !in p && i + |Over(p, i)| < desired)
            && (i in remove <==> i in p && desired + |Over(p, i)| < |p|)
  {
    hide LowestMissing, Highest;
    BetweenAtMost(p, 0, i);
    if i !in p {
      assert p == Between(p, 0, i) + Over(p, i);
      assert Between(p, 0, i) !! Over(p, i);
    }
    if |p| < desired { LowestMissingIff(p, 0, desired - |p|, i); }
    if |p| > desired { HighestIff(p, |p| - desired, i); }
  }

  // ---------- what a plan names ----------

  predicate Starts(acts: seq<Action>, s: string, i: nat) {
    exists k :: 0 <= k < |acts| && acts[k].Schedule? && acts[k].service == s && acts[k].index == i
  }

  predicate Stops(acts: seq<Action>, s: string, i: nat) {
    exists k :: 0 <= k < |acts| && acts[k].TearDown? && acts[k].service == s && acts[k].index == i
  }

  lemma NamesSnoc(acts: seq<Action>, a: Action, s: string, i: nat)
    ensures Starts(acts + [a], s, i) <==> Starts(acts, s, i) || (a.Schedule? && a.service == s && a.index == i)
    ensures Stops(acts + [a], s, i) <==> Stops(acts, s, i) || (a.TearDown? && a.service == s && a.index == i)
  {
    var more := acts + [a];
    assert more[|acts|] == a;
    if Starts(acts, s, i) {
      var k :| 0 <= k < |acts| && acts[k].Schedule? && acts[k].service == s && acts[k].index == i;
      assert more[k] == acts[k];
    }
    if Stops(acts, s, i) {
      var k :| 0 <= k < |acts| && acts[k].TearDown? && acts[k].service == s && acts[k].index == i;
      assert more[k] == acts[k];
    }
  }

  lemma {:induction false} AddsStart(st: State, now: nat, s: string, add: seq<nat>, w: Work, k: nat, t: string, i: nat)
    requires s in st.services && k <= |add|
    ensures var r := PlanAdds(st, now, s, add, w, k).actions;
            && |r| <= |w.actions| + k
            && (Starts(r, t, i) ==> Starts(w.actions, t, i) || (t == s && i in add[..k]))
            && (Starts(w.actions, t, i) ==> Starts(r, t, i))
            && (|r| == |w.actions| + k && t == s && i in add[..k] ==> Starts(r, t, i))
            && (Stops(r, t, i) <==> Stops(w.actions, t, i))
  {
    hide PlanAdd, Starts, Stops;
    if k > 0 {
      AddsStart(st, now, s, add, w, k - 1, t, i);
      var w1 := PlanAdds(st, now, s, add, w, k - 1);
      PlanAddShape(st, now, s, add[k - 1], w1);
      assert add[..k] == add[..k - 1] + [add[k - 1]];
      var r := PlanAdd(st, now, s, add[k - 1], w1);
      if r != w1 {
        var a: Action :| a.Schedule? && a.service == s && a.index == add[k - 1] && Alive(st.nodes, a.node, now) && r.actions == w1.actions + [a];
        NamesSnoc(w1.actions, a, t, i);
      }
    }
  }

  lemma {:induction false} RemovesStop(st: State, now: nat, s: string, remove: seq<nat>, w: Work, k: nat, t: string, i: nat)
    requires k <= |remove|
    ensures var r := PlanRemoves(st, now, s, remove, w, k).actions;
            && (Starts(r, t, i) <==> Starts(w.actions, t, i))
            && (Stops(r, t, i) <==> Stops(w.actions, t, i) || (t == s && i in remove[..k] && Reachable(st, now, s, i)))
  {
    hide ReplicaName, Alive, Starts, Stops;
    if k > 0 {
      RemovesStop(st, now, s, remove, w, k - 1, t, i);
      var w1 := PlanRemoves(st, now, s, remove, w, k - 1);
      assert remove[..k] == remove[..k - 1] + [remove[k - 1]];
      if Reachable(st, now, s, remove[k - 1]) {
        NamesSnoc(w1.actions, TearDown(s, remove[k - 1], st.placements[ReplicaName(s, remove[k - 1])]), t, i);
      }
    }
  }

  /** What one service's part of a plan names, and that it leaves what was named for others. */
  lemma ServiceNames(st: State, now: nat, s: string, w: Work, t: string, i: nat)
    requires s in st.services
    ensures var r := PlanService(st, now, s, w).actions;
            var (add, remove) := DiffReplicas(st.services[s].desired, Present(st, s, now));
            && (Starts(r, t, i) ==> Starts(w.actions, t, i) || (t == s && i in add))
            && (Starts(w.actions, t, i) ==> Starts(r, t, i))
            && (|r| == |w.actions| + Gap(st, s, now) && t == s && i in add ==> Starts(r, t, i))
            && (Stops(r, t, i) <==> Stops(w.actions, t, i) || (t == s && i in remove && Reachable(st, now, s, i)))
  {
    hide Present, PlanAdds, PlanRemoves, Starts, Stops, Reachable, Hosting;
    var (add, remove) := DiffReplicas(st.services[s].desired, Present(st, s, now));
    var w0 := w.(busy := Hosting(s, st.placements));
    var w1 := PlanAdds(st, now, s, add, w0, |add|);
    AddsStart(st, now, s, add, w0, |add|, t, i);
    RemovesStop(st, now, s, remove, w1, |remove|, t, i);
    RemovesIff(st, now, s, remove, w1, |remove|);
    assert add[..|add|] == add && remove[..|remove|] == remove;
  }

  lemma {:induction false} PlanNames(st: State, now: nat, order: seq<string>, k: nat, s: string, i: nat)
    requires k <= |order| && forall t | t in order :: t in st.services
    requires forall a, b | 0 <= a < b < |order| :: order[a] != order[b]
    requires s in st.services
    ensures var acts := PlanServices(st, now, order, k).actions;
            var (add, remove) := DiffReplicas(st.services[s].desired, Present(st, s, now));
            && |acts| <= GapIn(st, now, order, k)
            && (Starts(acts, s, i) ==> s in order[..k] && i in add)
            && (|acts| == GapIn(st, now, order, k) && s in order[..k] && i in add ==> Starts(acts, s, i))
            && (Stops(acts, s, i) <==> s in order[..k] && i in remove && Reachable(st, now, s, i))
  {
    hide PlanService, Present, Starts, Stops, Reachable, Gap, DiffReplicas, Wins;
    if k > 0 {
      PlanNames(st, now, order, k - 1, s, i);
      var t, w := order[k - 1], PlanServices(st, now, order, k - 1);
      ServiceNames(st, now, t, w, s, i);
      CountIsWins(st, now, order, k);
      assert order[..k] == order[..k - 1] + [t];
      var pool := ServiceShape(st, now, t, w);
    } else {
      NothingNamed(s, i);
    }
  }

  lemma NothingNamed(s: string, i: nat)
    ensures !Starts([], s, i) && !Stops([], s, i)
  {
  }

  /**
    * A plan starts replica `i` of a service only if it is not living and `i` plus the number of living replicas above it is
    * below the desired count; with the room it takes, it starts every such replica. It stops replica `i` exactly if it is
    * living, the excess reaches down to it, and its node can be reached.
    */
  lemma PlanStartsAndStops(st: State, now: nat, s: string, i: nat)
    requires s in st.services && i < TWO32
    ensures var acts, r := PlanOf(st, now), ReplicaName(s, i);
            var living, above, desired := Living(st, s, now), |Above(st, s, now, i)|, st.services[s].desired;
            && (Starts(acts, s, i) ==> r !in living && i + above < desired)
            && (Enough(st, now) && r !in living && i + above < desired ==> Starts(acts, s, i))
            && (Stops(acts, s, i) <==>
                  r in living && desired + above < |living| && r in st.placements && Alive(st.nodes, st.placements[r], now))
  {
    hide PlanServices, Present, Starts, Stops, Living, Above, ReplicaName, Alive, EnoughFor, DiffReplicas, AllServed, GapIn;
    var order := SortedKeys(st.services.Keys);
    forall a, b | 0 <= a < b < |order| ensures order[a] != order[b] { LessTotal(order[a], order[b]); }
    assert order[..|order|] == order;
    PlanNames(st, now, order, |order|, s, i);
    ServicesIff(st, now, order, |order|, false);
    DiffIff(st.services[s].desired, Present(st, s, now), i);
    PresentIsLiving(st, s, now);
    AboveSize(st, s, now, i);
    LivesAt(st, s, now, i);
  }

  /** A replica without volumes whose node is dead is started again elsewhere, when it is within the count and there is room. */
  lemma DeadReplicaIsReplaced(st: State, now: nat, s: string, i: nat)
    requires s in st.services && st.services[s].template.volumes == [] && i < TWO32 && Enough(st, now)
    requires ReplicaName(s, i) in st.placements && !Alive(st.nodes, st.placements[ReplicaName(s, i)], now)
    requires i + |Above(st, s, now, i)| < st.services[s].desired
    ensures exists k :: 0 <= k < |PlanOf(st, now)| && PlanOf(st, now)[k].Schedule? && Name(PlanOf(st, now)[k]) == ReplicaName(s, i)
                        && PlanOf(st, now)[k].node != st.placements[ReplicaName(s, i)] && Alive(st.nodes, PlanOf(st, now)[k].node, now)
  {
    hide PlanOf, ReplicaName, ReplicaIndex, Enough, Above, Present;
    PlanStartsAndStops(st, now, s, i);
    var acts := PlanOf(st, now);
    var k :| 0 <= k < |acts| && acts[k].Schedule? && acts[k].service == s && acts[k].index == i;
    PlanIsWell(st, now, Always);
    assert Fits(st, now, acts[k]);
  }
}
