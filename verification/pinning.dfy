/** A placed replica with volumes stays on its node until it is removed or force-repinned. */
module Pinning {
  import opened Text
  import opened Environment
  import opened Subnet
  import opened Addresses
  import opened Registry
  import opened Services
  import opened Plan
  import opened Convergence
  import opened PlanAddresses
  import opened Protocol
  import opened SingleHolder

  ghost predicate IsPinned(st: State, s: string, r: string) {
    s in st.services && Stateful(st.services[s]) && ReplicaIndex(s, r).Some? && r in st.placements
  }

  /** The replica's placement is as before, or gone. */
  predicate KeptOrGone(before: map<string, string>, after: map<string, string>, r: string)
    requires r in before
  {
    r in after ==> after[r] == before[r]
  }

  /** No plan schedules a replica with volumes that is already placed. */
  lemma PlacedIsNotScheduled(st: State, now: nat, s: string, r: string, a: Action)
    requires IsPinned(st, s, r) && Fits(st, now, a) && Name(a) == r
    ensures a.TearDown?
  {
    hide ReplicaName, ReplicaIndex, Present, Alive;
    if a.Schedule? {
      ReplicaIndexIff(a.service, r, a.index);
      OneService(s, a.service, r);
      InPresent(st, s, now, a.index);
    }
  }

  /** A plan gives a placed replica a new node only when it has no volumes and its old node is unreachable. */
  lemma ReplacesOnlyUnreachable(st: State, now: nat, k: nat)
    requires k < |PlanOf(st, now)|
    ensures var a := PlanOf(st, now)[k];
            a.Schedule? && Name(a) in st.placements ==>
              && a.service in st.services && !Stateful(st.services[a.service])
              && !Alive(st.nodes, st.placements[Name(a)], now) && st.placements[Name(a)] != a.node
  {
    hide PlanOf, Present, ReplicaName, Alive;
    PlanIsWell(st, now, Always);
    var a := PlanOf(st, now)[k];
    assert Fits(st, now, a);
    InPresent(st, a.service, now, a.index);
  }

  lemma {:induction false} ExecPins(st: State, now: nat, s: string, r: string, acts: seq<Action>, ok: nat -> bool, k: nat)
    requires IsPinned(st, s, r) && WellPlanned(st, now, acts) && k <= |acts|
    ensures KeptOrGone(st.placements, Exec(st, acts, ok, k).placements, r)
  {
    hide Name, Fits, Recorded, Released, IsPinned;
    if k > 0 {
      ExecPins(st, now, s, r, acts, ok, k - 1);
      if Name(acts[k - 1]) == r { PlacedIsNotScheduled(st, now, s, r, acts[k - 1]); }
    }
  }

  lemma ReconciledPins(st: State, now: nat, s: string, r: string, ok: nat -> bool)
    requires IsPinned(st, s, r)
    ensures KeptOrGone(st.placements, Reconciled(st, now, ok).placements, r)
  {
    hide PlanOf, WellPlanned, IsPinned;
    PlanIsWell(st, now, ok);
    ExecPins(st, now, s, r, PlanOf(st, now), ok, |PlanOf(st, now)|);
  }

  lemma {:induction false} TearDownsOnly(st: State, name: string, now: nat, order: seq<string>)
    ensures forall k | 0 <= k < |TearDowns(st, name, now, order)| :: TearDowns(st, name, now, order)[k].TearDown?
    decreases |order|
  {
    if order != [] { TearDownsOnly(st, name, now, order[..|order| - 1]); }
  }

  lemma {:induction false} ExecRemovesOnly(st: State, r: string, acts: seq<Action>, ok: nat -> bool, k: nat)
    requires r in st.placements && k <= |acts| && forall j | 0 <= j < |acts| :: acts[j].TearDown?
    ensures KeptOrGone(st.placements, Exec(st, acts, ok, k).placements, r)
  {
    hide Name, Released;
    if k > 0 { ExecRemovesOnly(st, r, acts, ok, k - 1); }
  }

  /** Every handler but a force-repin of this replica leaves its placement alone or removes it, whatever is alive. */
  lemma StepPins(cfg: Config, st: State, step: Step, s: string, r: string)
    requires IsPinned(st, s, r) && !(step.ForceRepin? && step.name == r)
    ensures KeptOrGone(st.placements, Next(cfg, st, step).placements, r)
  {
    hide Reconciled, PlanOf, ApplyTo, Conflict, Registered, Beaten, ReplicaIndex, Alive, OwnerOf, PrepareForceRepin, Recorded;
    match step
    case Register(_, _, _, _, _, _) =>
    case Heartbeat(id, cpu, memory, running, now, calls, done) =>
      var st1 := st.(nodes := Beaten(st.nodes, id, cpu, memory, running, now));
      ReconciledPins(st1, now, s, r, calls);
      FencedServices(Reconciled(st1, now, calls), id, now, done);
    case ApplyService(name, desired, template, port, now, calls) =>
      ApplyUpdates(st.services, cfg.service, name, desired, template, port);
      var res := ServiceApplied(st, cfg.service, name, desired, template, port);
      if res.Applied? { ReconciledPins(st.(services := res.services), now, s, r, calls); }
    case DeleteService(name, now, order, calls) =>
      TearDownsOnly(st, name, now, order);
      var acts := TearDowns(st, name, now, order);
      ExecRemovesOnly(st.(services := st.services - {name}), r, acts, calls, |acts|);
    case ForceRepin(_, _, _, _) =>
    case PutJail(_, name, _, _) => if name == r { OwnerIs(r, st.placements, st.services, s); }
    case ScheduleJail(name, _, _) => if name == r { OwnerIs(r, st.placements, st.services, s); }
    case DeleteJail(_, _, _, _) =>
    case DeleteScheduledJail(_, _, _) =>
  }

  /**
    * Over a whole run of any handlers, from any state: while the service exists with volumes and the replica stays
    * placed, only a force-repin of it can change its node.
    */
  lemma {:induction false} RunPins(cfg: Config, st: State, run: seq<Step>, k: nat, s: string, r: string)
    requires k <= |run|
    requires forall i | 0 <= i <= k :: IsPinned(After(cfg, st, run, i), s, r)
    requires forall i | 0 <= i < k :: !(run[i].ForceRepin? && run[i].name == r)
    ensures IsPinned(After(cfg, st, run, k), s, r) && IsPinned(After(cfg, st, run, 0), s, r)
    ensures After(cfg, st, run, k).placements[r] == st.placements[r]
  {
    hide Next, ReplicaIndex;
    assert IsPinned(After(cfg, st, run, 0), s, r) && IsPinned(After(cfg, st, run, k), s, r);
    if k > 0 {
      RunPins(cfg, st, run, k - 1, s, r);
      StepPins(cfg, After(cfg, st, run, k - 1), run[k - 1], s, r);
    }
  }
}
