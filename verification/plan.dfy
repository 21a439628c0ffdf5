/** The control plane's tables, the plan a reconcile pass computes, and the execution of its actions. */
module Plan {
  import opened Text
  import opened Subnet
  import opened Addresses
  import opened Scheduler
  import opened Registry
  import opened Services

  /** The six tables of the worker, and the environment: which node holds which jail. */
  datatype State = State(
    nodes: Nodes,
    services: ServiceMap,
    placements: map<string, string>,
    used: Used,
    standbys: map<string, string>,
    fences: map<string, string>,
    jails: set<(string, string)>)

  /** One step of a plan; the replica it names is `<service>-<index>`. */
  datatype Action =
    | Schedule(service: string, index: nat, node: string, address: u32, standby: Option<string>)
    | TearDown(service: string, index: nat, node: string)

  function Name(a: Action): string { ReplicaName(a.service, a.index) }

  // ---------- computing a plan ----------

  /** A placement counts as present; for a service without volumes only while its node is alive. */
  predicate Counts(st: State, s: string, now: nat, jail: string)
    requires s in st.services
  {
    jail in st.placements && (Stateful(st.services[s]) || Alive(st.nodes, st.placements[jail], now))
  }

  function Present(st: State, s: string, now: nat): set<nat>
    requires s in st.services
  {
    set j | j in st.placements && ReplicaIndex(s, j).Some? && Counts(st, s, now, j) :: ReplicaIndex(s, j).value
  }

  lemma InPresent(st: State, s: string, now: nat, i: nat)
    requires s in st.services
    ensures i in Present(st, s, now) <==> i < TWO32 && Counts(st, s, now, ReplicaName(s, i))
  {
    ReplicaIndexIff(s, ReplicaName(s, i), i);
    if i in Present(st, s, now) {
      var j :| j in st.placements && ReplicaIndex(s, j) == Some(i) && Counts(st, s, now, j);
      ReplicaIndexIff(s, j, i);
    }
  }

  function Hosting(s: string, placements: map<string, string>): set<string> {
    set j | j in placements && ReplicaIndex(s, j).Some? :: placements[j]
  }

  /** What a pass carries along: the actions so far, the addresses they would use, the nodes busy for this service. */
  datatype Work = Work(actions: seq<Action>, used: Used, busy: set<string>)

  ghost function Pick(st: State, now: nat, busy: set<string>): Option<string> {
    PickNodeForService(AliveNodes(st.nodes, now), busy)
  }

  /** The alive node a replica should go to: the best one outside `busy`, or of all when all are busy. */
  ghost predicate IsChoice(st: State, now: nat, busy: set<string>, b: string) {
    && Alive(st.nodes, b, now)
    && (b in busy ==> forall n | Alive(st.nodes, n, now) :: n in busy)
    && forall n | Alive(st.nodes, n, now) && (n !in busy || b in busy) ::
         NotBeaten(ResourcesOf(b, st.nodes[b]), ResourcesOf(n, st.nodes[n]))
  }

  lemma PickAlive(st: State, now: nat, busy: set<string>)
    ensures var r := Pick(st, now, busy);
            && (r.None? <==> forall n :: !Alive(st.nodes, n, now))
            && (r.Some? ==> Alive(st.nodes, r.value, now))
            && (r.Some? && r.value in busy ==> forall n | Alive(st.nodes, n, now) :: n in busy)
  {
    hide NotBeaten;
    PickIsChoice(st, now, busy);
  }

  /** None only when nobody is alive; otherwise the choice. */
  lemma PickIsChoice(st: State, now: nat, busy: set<string>)
    ensures var r := Pick(st, now, busy);
            && (r.None? <==> forall n :: !Alive(st.nodes, n, now))
            && (r.Some? ==> IsChoice(st, now, busy, r.value))
  {
    hide NotBeaten, AliveNodes, PickNodeForService;
    var nodes := AliveNodes(st.nodes, now);
    AliveNodesMembers(st.nodes, now);
    PickSpreads(nodes, busy);
    if nodes != [] {
      assert nodes[0] in nodes;
      var b :| BestIdle(nodes, busy, b) && Some(b.id) == Pick(st, now, busy);
      forall n | Alive(st.nodes, n, now) ensures ResourcesOf(n, st.nodes[n]) in nodes && ResourcesOf(n, st.nodes[n]).id == n {}
    }
  }

  /** There is one choice at most. */
  lemma OneChoice(st: State, now: nat, busy: set<string>, a: string, b: string)
    requires IsChoice(st, now, busy, a) && IsChoice(st, now, busy, b)
    ensures a == b
  {
    hide HeadroomScore;
    LessTotal(a, b);
  }

  ghost function PickStandby(st: State, now: nat, s: string, node: string, busy: set<string>): Option<string>
    requires s in st.services
  {
    if !Stateful(st.services[s]) then None
    else
      match Pick(st, now, busy)
      case None => None
      case Some(id) =>
        if id == node || id !in st.nodes || st.nodes[id].replicateAddr.None? then None else Some(id)
  }

  /** One missing index: skipped when no node, no address or no reachable address is found. */
  ghost function PlanAdd(st: State, now: nat, s: string, index: nat, w: Work): Work
    requires s in st.services
  {
    match Pick(st, now, w.busy)
    case None => w
    case Some(node) =>
      if node !in st.nodes then w
      else
        match FirstFreeAddress(st.nodes[node].pod, node, w.used)
        case None => w
        case Some(address) =>
          if !Alive(st.nodes, node, now) then w
          else
            var busy := w.busy + {node};
            var standby := PickStandby(st, now, s, node, busy);
            Work(w.actions + [Schedule(s, index, node, address, standby)],
                 Recorded(w.used, ReplicaName(s, index), node, address),
                 busy)
  }

  ghost function PlanAdds(st: State, now: nat, s: string, add: seq<nat>, w: Work, k: nat): Work
    requires s in st.services && k <= |add|
  {
    if k == 0 then w else PlanAdd(st, now, s, add[k - 1], PlanAdds(st, now, s, add, w, k - 1))
  }

  /** One excess index: skipped when its node is unreachable. */
  function PlanRemove(st: State, now: nat, s: string, index: nat, w: Work): Work {
    var jail := ReplicaName(s, index);
    if jail !in st.placements || !Alive(st.nodes, st.placements[jail], now) then w
    else w.(actions := w.actions + [TearDown(s, index, st.placements[jail])])
  }

  function PlanRemoves(st: State, now: nat, s: string, remove: seq<nat>, w: Work, k: nat): Work
    requires k <= |remove|
  {
    if k == 0 then w else PlanRemove(st, now, s, remove[k - 1], PlanRemoves(st, now, s, remove, w, k - 1))
  }

  ghost function PlanService(st: State, now: nat, s: string, w: Work): Work
    requires s in st.services
  {
    var (add, remove) := DiffReplicas(st.services[s].desired, Present(st, s, now));
    var w1 := PlanAdds(st, now, s, add, w.(busy := Hosting(s, st.placements)), |add|);
    PlanRemoves(st, now, s, remove, w1, |remove|)
  }

  ghost function PlanServices(st: State, now: nat, order: seq<string>, k: nat): Work
    requires k <= |order| && forall s | s in order :: s in st.services
  {
    if k == 0 then Work([], st.used, {})
    else PlanService(st, now, order[k - 1], PlanServices(st, now, order, k - 1))
  }

  /** The plan of one pass: every service in name order, additions before removals. */
  ghost function PlanOf(st: State, now: nat): seq<Action> {
    var order := SortedKeys(st.services.Keys);
    PlanServices(st, now, order, |order|).actions
  }

  // ---------- executing a plan ----------

  /** One action; `ok` is whether the forwarded call was answered with success. A failed call changes nothing. */
  function ExecAction(st: State, a: Action, ok: bool): State {
    if !ok then st
    else
      match a
      case Schedule(_, _, node, address, standby) =>
        st.(placements := st.placements[Name(a) := node],
            used := Recorded(st.used, Name(a), node, address),
            standbys := if standby.Some? then st.standbys[Name(a) := standby.value] else st.standbys,
            jails := st.jails + {(node, Name(a))})
      case TearDown(_, _, node) =>
        st.(placements := st.placements - {Name(a)},
            used := Released(st.used, Name(a)),
            jails := st.jails - {(node, Name(a))})
  }

  /** The state after the first `k` actions, call `i` having outcome `ok(i)`. */
  function Exec(st: State, acts: seq<Action>, ok: nat -> bool, k: nat): State
    requires k <= |acts|
  {
    if k == 0 then st else ExecAction(Exec(st, acts, ok, k - 1), acts[k - 1], ok(k - 1))
  }
}
