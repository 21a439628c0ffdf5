/** Replicas of one service are spread over nodes as far as there are nodes. */
module Spreading {
  import opened Text
  import opened Environment
  import opened Addresses
  import opened Registry
  import opened Services
  import opened Plan
  import opened Convergence

  /** The nodes that host a replica of `s`: placed ones, and those the first `k` actions would place. */
  function Hosts(st: State, s: string, acts: seq<Action>, k: nat): set<string>
    requires k <= |acts|
  {
    if k == 0 then set j | j in st.placements && ReplicaIndex(s, j).Some? :: st.placements[j]
    else
      var rest := Hosts(st, s, acts, k - 1);
      if acts[k - 1].Schedule? && acts[k - 1].service == s then rest + {acts[k - 1].node} else rest
  }

  /**
    * The standby that goes with a replica on `node`: none without volumes; otherwise the choice outside the nodes hosting
    * the service and `node` itself, unless that is `node` again or cannot take replication.
    */
  ghost predicate StandbyFits(st: State, now: nat, s: string, hosts: set<string>, node: string, standby: Option<string>) {
    && s in st.services
    && if st.services[s].template.volumes == [] then standby.None?
       else exists c :: IsChoice(st, now, hosts + {node}, c) && c in st.nodes
                        && standby == if c == node || st.nodes[c].replicateAddr.None? then None else Some(c)
  }

  /** A scheduled replica goes to the choice outside the nodes that host its service, and has the standby that fits. */
  ghost predicate Placed(st: State, now: nat, hosts: set<string>, a: Action) {
    a.Schedule? ==> IsChoice(st, now, hosts, a.node) && StandbyFits(st, now, a.service, hosts, a.node, a.standby)
  }

  ghost predicate Spreads(st: State, now: nat, acts: seq<Action>, k: nat)
    requires k < |acts|
  {
    Placed(st, now, Hosts(st, acts[k].service, acts, k), acts[k])
  }

  ghost predicate AllSpread(st: State, now: nat, acts: seq<Action>) {
    forall k | 0 <= k < |acts| :: Spreads(st, now, acts, k)
  }

  lemma {:induction false} HostsOfPrefix(st: State, s: string, acts: seq<Action>, more: seq<Action>, k: nat)
    requires acts <= more && k <= |acts|
    ensures Hosts(st, s, acts, k) == Hosts(st, s, more, k)
  {
    if k > 0 { HostsOfPrefix(st, s, acts, more, k - 1); }
  }

  lemma {:induction false} HostsOfOthers(st: State, s: string, acts: seq<Action>, k: nat)
    requires k <= |acts| && forall j | 0 <= j < k :: acts[j].service != s
    ensures Hosts(st, s, acts, k) == Hosting(s, st.placements)
  {
    if k > 0 { HostsOfOthers(st, s, acts, k - 1); }
  }

  lemma AppendSpread(st: State, now: nat, acts: seq<Action>, a: Action)
    requires AllSpread(st, now, acts)
    requires Placed(st, now, Hosts(st, a.service, acts, |acts|), a)
    ensures AllSpread(st, now, acts + [a])
    ensures Hosts(st, a.service, acts + [a], |acts| + 1) ==
            Hosts(st, a.service, acts, |acts|) + if a.Schedule? then {a.node} else {}
  {
    hide Placed;
    var more := acts + [a];
    forall k | 0 <= k < |more| ensures Spreads(st, now, more, k) {
      HostsOfPrefix(st, more[k].service, acts, more, k);
      if k < |acts| { assert Spreads(st, now, acts, k); }
    }
    HostsOfPrefix(st, a.service, acts, more, |acts|);
  }

  lemma AddSpreads(st: State, now: nat, s: string, index: nat, w: Work)
    requires s in st.services && AllSpread(st, now, w.actions)
    requires w.busy == Hosts(st, s, w.actions, |w.actions|)
    ensures var r := PlanAdd(st, now, s, index, w);
            AllSpread(st, now, r.actions) && r.busy == Hosts(st, s, r.actions, |r.actions|)
  {
    hide AllSpread, Hosts, Recorded, FirstFreeAddress, ReplicaName, Pick, IsChoice;
    PickIsChoice(st, now, w.busy);
    var r := PlanAdd(st, now, s, index, w);
    if r != w {
      var a := r.actions[|w.actions|];
      PickIsChoice(st, now, r.busy);
      ChoiceIsKnown(st, now, r.busy);
      AppendSpread(st, now, w.actions, a);
    }
  }

  lemma ChoiceIsKnown(st: State, now: nat, busy: set<string>)
    ensures forall c | IsChoice(st, now, busy, c) :: c in st.nodes && Alive(st.nodes, c, now)
  {
  }

  lemma {:induction false} AddsSpread(st: State, now: nat, s: string, add: seq<nat>, w: Work, k: nat)
    requires s in st.services && k <= |add| && AllSpread(st, now, w.actions)
    requires w.busy == Hosts(st, s, w.actions, |w.actions|)
    ensures var r := PlanAdds(st, now, s, add, w, k);
            AllSpread(st, now, r.actions) && r.busy == Hosts(st, s, r.actions, |r.actions|)
  {
    hide PlanAdd, AllSpread, Hosts;
    if k > 0 {
      AddsSpread(st, now, s, add, w, k - 1);
      AddSpreads(st, now, s, add[k - 1], PlanAdds(st, now, s, add, w, k - 1));
    }
  }

  lemma {:induction false} RemovesSpread(st: State, now: nat, s: string, remove: seq<nat>, w: Work, k: nat)
    requires k <= |remove| && AllSpread(st, now, w.actions)
    ensures AllSpread(st, now, PlanRemoves(st, now, s, remove, w, k).actions)
  {
    hide AllSpread, Hosts, Alive, ReplicaName;
    if k > 0 {
      RemovesSpread(st, now, s, remove, w, k - 1);
      var w1 := PlanRemoves(st, now, s, remove, w, k - 1);
      var r := PlanRemove(st, now, s, remove[k - 1], w1);
      if r != w1 { AppendSpread(st, now, w1.actions, r.actions[|w1.actions|]); }
    }
  }

  lemma {:induction false} ServicesSpread(st: State, now: nat, order: seq<string>, k: nat)
    requires k <= |order| && forall s | s in order :: s in st.services
    requires forall i, j | 0 <= i < j < |order| :: order[i] != order[j]
    ensures AllSpread(st, now, PlanServices(st, now, order, k).actions)
  {
    hide AllSpread, Present, PlanAdds, PlanRemoves, WellPlanned, Hosts, Hosting;
    if k > 0 {
      ServicesSpread(st, now, order, k - 1);
      ServicesShape(st, now, order, k - 1, Always);
      var s, w := order[k - 1], PlanServices(st, now, order, k - 1);
      HostsOfOthers(st, s, w.actions, |w.actions|);
      var (add, remove) := DiffReplicas(st.services[s].desired, Present(st, s, now));
      var w0 := w.(busy := Hosting(s, st.placements));
      AddsSpread(st, now, s, add, w0, |add|);
      RemovesSpread(st, now, s, remove, PlanAdds(st, now, s, add, w0, |add|), |remove|);
    } else {
      assert AllSpread(st, now, []) by { NothingSpreads(st, now); }
    }
  }

  lemma NothingSpreads(st: State, now: nat)
    ensures AllSpread(st, now, [])
  {
  }

  /**
    * In every plan, each replica goes to the best alive node that hosts none of its service, placed or earlier in the pass,
    * and to the best of all only when every one does; its standby is the next such node.
    */
  lemma PlanSpreads(st: State, now: nat)
    ensures AllSpread(st, now, PlanOf(st, now))
  {
    hide AllSpread, PlanServices;
    var order := SortedKeys(st.services.Keys);
    forall i, j | 0 <= i < j < |order| ensures order[i] != order[j] { LessTotal(order[i], order[j]); }
    ServicesSpread(st, now, order, |order|);
  }
}
