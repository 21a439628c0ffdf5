/** Fences are carried out: the owed node's heartbeat ends the second holder it stands for. */
module Fencing {
  import opened Text
  import opened Environment
  import opened Subnet
  import opened Addresses
  import opened Registry
  import opened Services
  import opened Plan
  import opened Convergence
  import opened PlanAddresses
  import opened Protocol
  import opened Rounds
  import opened SingleHolder

  /** A node is alive at the moment it is heard of. */
  lemma HeardIsAlive(nodes: Nodes, id: string, cpu: real, memory: nat, running: map<string, bool>, now: nat)
    requires id in nodes
    ensures Alive(Beaten(nodes, id, cpu, memory, running, now), id, now)
  {
  }

  lemma ReconciledFences(st: State, now: nat, ok: nat -> bool)
    ensures Reconciled(st, now, ok).fences == st.fences && Reconciled(st, now, ok).nodes == st.nodes
  {
    hide PlanOf;
    ExecKeeps(st, PlanOf(st, now), ok, |PlanOf(st, now)|);
  }

  /** What the round of a heartbeat plans: it sees the refreshed node. */
  ghost function HeartbeatPlan(st: State, id: string, cpu: real, memory: nat, running: map<string, bool>, now: nat): seq<Action> {
    PlanOf(st.(nodes := Beaten(st.nodes, id, cpu, memory, running, now)), now)
  }

  /**
    * A known node's heartbeat discharges exactly the fences it owes whose delete was answered, and the jail goes with the
    * fence; fences owed by other nodes stay, none is added, and every other jail the round did not name stays where it was.
    */
  lemma HeartbeatDischarges(cfg: Config, st: State, id: string, cpu: real, memory: nat, running: map<string, bool>, now: nat,
                            calls: nat -> bool, done: set<string>)
    requires id in st.nodes
    ensures var after := Next(cfg, st, Heartbeat(id, cpu, memory, running, now, calls, done));
            && (forall r | r in st.fences && st.fences[r] == id ::
                  && (r in after.fences <==> r !in done)
                  && (r in done ==> (id, r) !in after.jails))
            && (forall r | r in st.fences && st.fences[r] != id :: r in after.fences)
            && (forall r | r in after.fences :: r in st.fences && after.fences[r] == st.fences[r])
            && (forall n, r | !Named(HeartbeatPlan(st, id, cpu, memory, running, now), r) ::
                  (n, r) in after.jails <==> (n, r) in st.jails && !(n == id && r in done && r in st.fences && st.fences[r] == id))
  {
    hide PlanOf, Reconciled, Beaten, Alive, SameEntries;
    var st1 := st.(nodes := Beaten(st.nodes, id, cpu, memory, running, now));
    var st2 := Reconciled(st1, now, calls);
    HeardIsAlive(st.nodes, id, cpu, memory, running, now);
    ReconciledFences(st1, now, calls);
    assert Owed(st2, id) == set r | r in st.fences && st.fences[r] == id;
    forall n, r | !Named(PlanOf(st1, now), r) ensures (n, r) in st2.jails <==> (n, r) in st.jails {
      RoundSparesOthers(st1, now, calls, r);
      SameHolders(st1, st2, r, n);
    }
  }

  ghost predicate Named(acts: seq<Action>, r: string) {
    exists j :: 0 <= j < |acts| && Name(acts[j]) == r
  }

  lemma SameHolders(a: State, b: State, r: string, n: string)
    requires SameEntries(a, b, r)
    ensures (n, r) in a.jails <==> (n, r) in b.jails
  {
  }

  // ---------- runs ----------

  /** The owed node heartbeats and answers the delete of this replica. */
  predicate Discharges(st: State, step: Step, r: string) {
    step.Heartbeat? && step.id in st.nodes && r in st.fences && st.fences[r] == step.id && r in step.done
  }

  lemma DischargedIsGone(cfg: Config, st: State, step: Step, r: string)
    requires Discharges(st, step, r)
    ensures r !in Next(cfg, st, step).fences && (step.id, r) !in Next(cfg, st, step).jails
  {
    hide Next;
    HeartbeatDischarges(cfg, st, step.id, step.cpu, step.memory, step.running, step.now, step.calls, step.done);
  }

  /** Only a force-repin of the replica makes a fence for it. */
  lemma OnlyRepinFences(cfg: Config, st: State, step: Step, r: string)
    requires r !in st.fences && !(step.ForceRepin? && step.name == r)
    ensures r !in Next(cfg, st, step).fences
  {
    hide Reconciled, Registered, Beaten, Conflict, ApplyTo, PlanOf, TearDowns, ServiceOwned, PrepareForceRepin, Recorded, Alive;
    match step
    case Heartbeat(id, cpu, memory, running, now, calls, done) =>
      var st1 := st.(nodes := Beaten(st.nodes, id, cpu, memory, running, now));
      ReconciledFences(st1, now, calls);
    case ApplyService(name, desired, template, port, now, calls) =>
      var res := ServiceApplied(st, cfg.service, name, desired, template, port);
      if res.Applied? { ReconciledFences(st.(services := res.services), now, calls); }
    case DeleteService(name, now, order, calls) =>
      var acts := TearDowns(st, name, now, order);
      ExecKeeps(st.(services := st.services - {name}), acts, calls, |acts|);
    case _ =>
  }

  lemma {:induction false} StaysDischarged(cfg: Config, run: seq<Step>, k: nat, j: nat, r: string)
    requires k < j <= |run| && Discharges(After(cfg, Empty, run, k), run[k], r)
    requires forall i | k < i < j :: !(run[i].ForceRepin? && run[i].name == r)
    ensures r !in After(cfg, Empty, run, j).fences
    decreases j
  {
    hide Next;
    if j == k + 1 {
      DischargedIsGone(cfg, After(cfg, Empty, run, k), run[k], r);
    } else {
      StaysDischarged(cfg, run, k, j - 1, r);
      OnlyRepinFences(cfg, After(cfg, Empty, run, j - 1), run[j - 1], r);
    }
  }

  /**
    * Once the owed node has heartbeated and answered, and until the replica is force-repinned again, a replica with volumes
    * is held by at most one node, and that node is its placement.
    */
  lemma FenceEndsSecondHolder(cfg: Config, run: seq<Step>, k: nat, j: nat, r: string)
    requires k < j <= |run| && CoveredRun(cfg, run, j) && Discharges(After(cfg, Empty, run, k), run[k], r)
    requires forall i | k < i < j :: !(run[i].ForceRepin? && run[i].name == r)
    requires StatefulReplica(After(cfg, Empty, run, j), r)
    ensures var st := After(cfg, Empty, run, j);
            && (forall n | (n, r) in st.jails :: r in st.placements && st.placements[r] == n)
            && (forall a, b | (a, r) in st.jails && (b, r) in st.jails :: a == b)
  {
    hide After, StatefulReplica, CoveredRun, Discharges;
    StaysDischarged(cfg, run, k, j, r);
    SingleHolderSafety(cfg, run, j, r);
  }
}
