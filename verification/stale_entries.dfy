/** A run in which entries left behind by direct deletes end with two live replicas on one address. */
module StaleEntries {
  import opened Text
  import opened Environment
  import opened Subnet
  import opened Addresses
  import opened Registry
  import opened Services
  import opened Plan
  import opened Convergence
  import opened PlanAddresses
  import opened Protocol
  import opened AddressRuns
  import opened Counterexamples

  const Web := Template("", [])

  /**
    * On a single node: two replicas start, both are deleted directly, a round in which only the second call succeeds
    * brings one back, and the service is scaled up to three.
    */
  function Scaled(n: string, s: string): seq<Step> {
    [Join(n, 0),
     ApplyService(s, 2, Web, 80, 0, Always),
     DeleteScheduledJail(ReplicaName(s, 0), 0, true),
     DeleteScheduledJail(ReplicaName(s, 1), 0, true),
     ApplyService(s, 2, Web, 80, 0, Only(1)),
     ApplyService(s, 3, Web, 80, 0, Always)]
  }

  /** The only node, with the only service. */
  function Single(cfg: Config, n: string, s: string, desired: u32, placements: map<string, string>, used: Used, jails: set<(string, string)>): State {
    State(map[n := NodeAt(cfg, n, 0)],
          map[s := ServiceRecord(desired, Web, DeriveServiceVip(s, cfg.service, 0), 80)],
          placements, used, map[], map[], jails)
  }

  function Block(cfg: Config, n: string): u32 { DerivePodCidr(n, cfg.cluster).addr }

  lemma BlockHosts(cfg: Config, n: string)
    ensures Block(cfg, n) + 256 <= TWO32
    ensures forall a: u32 :: Assignable(DerivePodCidr(n, cfg.cluster), a) <==> Block(cfg, n) + 1 < a <= Block(cfg, n) + 254
  {
    Pow2Of32();
    BlockInRange(cfg.cluster);
  }

  lemma BlockFits(cfg: Config, n: string)
    ensures Block(cfg, n) + 256 <= TWO32
  {
    BlockHosts(cfg, n);
  }

  lemma FirstFreeIs(cfg: Config, n: string, u: Used, k: nat)
    requires 2 <= k <= 254
    requires forall a: u32 | Block(cfg, n) + 2 <= a <= Block(cfg, n) + k :: a in Taken(u, n) <==> a < Block(cfg, n) + k
    ensures FirstFreeAddress(DerivePodCidr(n, cfg.cluster), n, u) == Some(Block(cfg, n) + k)
  {
    hide DerivePodCidr, Assignable, Taken;
    BlockHosts(cfg, n);
    var x, b := FirstFreeAddress(DerivePodCidr(n, cfg.cluster), n, u), Block(cfg, n);
    assert Assignable(DerivePodCidr(n, cfg.cluster), b + k);
  }

  /** The plan of two additions on the only node. */
  lemma TwoAdds(cfg: Config, n: string, s: string, st: State, i: nat, j: nat, x: u32, y: u32)
    requires st.nodes == map[n := NodeAt(cfg, n, 0)] && st.services.Keys == {s} && st.services[s].template == Web
    requires DiffReplicas(st.services[s].desired, Present(st, s, 0)) == ([i, j], [])
    requires FirstFreeAddress(DerivePodCidr(n, cfg.cluster), n, st.used) == Some(x)
    requires FirstFreeAddress(DerivePodCidr(n, cfg.cluster), n, Recorded(st.used, ReplicaName(s, i), n, x)) == Some(y)
    ensures PlanOf(st, 0) == [Schedule(s, i, n, x, None), Schedule(s, j, n, y, None)]
  {
    hide ReplicaName, Pick, FirstFreeAddress, DerivePodCidr, Recorded, Present, Hosting;
    OneServicePlan(st, 0, s);
    assert Alive(st.nodes, n, 0);
    var add: seq<nat> := [i, j];
    var w0 := Work([], st.used, Hosting(s, st.placements));
    PickAlive(st, 0, w0.busy);
    PickAlive(st, 0, w0.busy + {n});
    var w1 := PlanAdd(st, 0, s, i, w0);
    assert PlanAdds(st, 0, s, add, w0, 1) == w1;
    assert PlanAdds(st, 0, s, add, w0, 2) == PlanAdd(st, 0, s, j, w1);
  }

  lemma Accepted(cfg: Config, n: string, s: string, desired: u32, st: State, next: u32)
    requires st == Single(cfg, n, s, desired, st.placements, st.used, st.jails)
    ensures ServiceApplied(st, cfg.service, s, next, Web, 80) == Applied(Single(cfg, n, s, next, map[], st.used, {}).services)
  {
    hide DeriveServiceVip, DerivePodCidr;
    ConflictIff(st, s, next, 0);
  }

  // ---------- the run, state by state ----------

  lemma NamesDiffer(s: string)
    ensures ReplicaName(s, 0) != ReplicaName(s, 1) && ReplicaName(s, 0) != ReplicaName(s, 2) && ReplicaName(s, 1) != ReplicaName(s, 2)
  {
    hide ReplicaName;
    if ReplicaName(s, 0) == ReplicaName(s, 1) { ReplicaNameInjective(s, 0, s, 1); }
    if ReplicaName(s, 0) == ReplicaName(s, 2) { ReplicaNameInjective(s, 0, s, 2); }
    if ReplicaName(s, 1) == ReplicaName(s, 2) { ReplicaNameInjective(s, 1, s, 2); }
  }

  lemma ExecTwo(st: State, acts: seq<Action>, ok: nat -> bool)
    requires |acts| == 2
    ensures Exec(st, acts, ok, 2) == ExecAction(ExecAction(st, acts[0], ok(0)), acts[1], ok(1))
  {
    hide ExecAction;
    assert Exec(st, acts, ok, 1) == ExecAction(Exec(st, acts, ok, 0), acts[0], ok(0));
  }

  /** Both replicas hold an entry. */
  function Both(cfg: Config, n: string, s: string): Used {
    BlockFits(cfg, n);
    var b := Block(cfg, n);
    Used(map[n := {b + 2, b + 3}], map[ReplicaName(s, 0) := (n, b + 2), ReplicaName(s, 1) := (n, b + 3)])
  }

  /** Replica 1 has been given the address of replica 0's leftover entry. */
  function Shared(cfg: Config, n: string, s: string): Used {
    BlockFits(cfg, n);
    var b := Block(cfg, n);
    Used(map[n := {b + 2}], map[ReplicaName(s, 0) := (n, b + 2), ReplicaName(s, 1) := (n, b + 2)])
  }

  /** All entries on one node. */
  lemma RecordOn(n: string, taken: set<u32>, entries: map<string, (string, u32)>, j: string, x: u32)
    requires j in entries ==> entries[j].0 == n
    ensures Recorded(Used(map[n := taken], entries), j, n, x) ==
            Used(map[n := (if j in entries then taken - {entries[j].1} else taken) + {x}], entries[j := (n, x)])
  {
  }

  lemma RecordFirst(n: string, j: string, x: u32)
    ensures Recorded(Used(map[], map[]), j, n, x) == Used(map[n := {x}], map[j := (n, x)])
  {
    assert {} + {x} == {x};
  }

  lemma NonePresent(st: State, s: string)
    requires s in st.services && st.services[s].desired == 2 && st.placements == map[]
    ensures DiffReplicas(st.services[s].desired, Present(st, s, 0)) == ([0, 1], [])
  {
    assert Present(st, s, 0) == {};
    assert LowestMissing({}, 0, 2) == [0, 1];
  }

  lemma FirstPlan(cfg: Config, n: string, s: string)
    ensures Block(cfg, n) + 256 <= TWO32
    ensures PlanOf(Single(cfg, n, s, 2, map[], Used(map[], map[]), {}), 0) ==
            [Schedule(s, 0, n, Block(cfg, n) + 2, None), Schedule(s, 1, n, Block(cfg, n) + 3, None)]
  {
    hide ReplicaName, DeriveServiceVip, DerivePodCidr, FirstFreeAddress, PlanOf, Present;
    BlockHosts(cfg, n);
    var st, b := Single(cfg, n, s, 2, map[], Used(map[], map[]), {}), Block(cfg, n);
    NonePresent(st, s);
    FirstFreeIs(cfg, n, st.used, 2);
    FirstFreeIs(cfg, n, Recorded(st.used, ReplicaName(s, 0), n, b + 2), 3);
    TwoAdds(cfg, n, s, st, 0, 1, b + 2, b + 3);
  }

  lemma FirstRound(cfg: Config, n: string, s: string)
    ensures var r0, r1 := ReplicaName(s, 0), ReplicaName(s, 1);
            Reconciled(Single(cfg, n, s, 2, map[], Used(map[], map[]), {}), 0, Always) ==
            Single(cfg, n, s, 2, map[r0 := n, r1 := n], Both(cfg, n, s), {(n, r0), (n, r1)})
  {
    hide ReplicaName, DeriveServiceVip, Block, PlanOf, NodeAt;
    NamesDiffer(s);
    FirstPlan(cfg, n, s);
    var st, b := Single(cfg, n, s, 2, map[], Used(map[], map[]), {}), Block(cfg, n);
    var r0, r1 := ReplicaName(s, 0), ReplicaName(s, 1);
    var one := Recorded(st.used, r0, n, b + 2);
    RecordFirst(n, r0, b + 2);
    RecordOn(n, {b + 2}, one.byJail, r1, b + 3);
    assert {b + 2} + {b + 3} == {b + 2, b + 3};
    ExecTwo(st, PlanOf(st, 0), Always);
  }

  /** The leftover entries push replica 0 to a third address and offer its old one to replica 1. */
  lemma SecondPlan(cfg: Config, n: string, s: string)
    ensures Block(cfg, n) + 256 <= TWO32
    ensures PlanOf(Single(cfg, n, s, 2, map[], Both(cfg, n, s), {}), 0) ==
            [Schedule(s, 0, n, Block(cfg, n) + 4, None), Schedule(s, 1, n, Block(cfg, n) + 2, None)]
  {
    hide ReplicaName, DeriveServiceVip, Block, FirstFreeAddress, PlanOf, Present, Recorded, DerivePodCidr;
    BlockFits(cfg, n);
    NamesDiffer(s);
    var st, b := Single(cfg, n, s, 2, map[], Both(cfg, n, s), {}), Block(cfg, n);
    NonePresent(st, s);
    FirstFreeIs(cfg, n, st.used, 4);
    RecordOn(n, {b + 2, b + 3}, st.used.byJail, ReplicaName(s, 0), b + 4);
    assert {b + 2, b + 3} - {b + 2} + {b + 4} == {b + 3, b + 4};
    FirstFreeIs(cfg, n, Recorded(st.used, ReplicaName(s, 0), n, b + 4), 2);
    TwoAdds(cfg, n, s, st, 0, 1, b + 4, b + 2);
  }

  lemma SecondRound(cfg: Config, n: string, s: string)
    ensures var r1 := ReplicaName(s, 1);
            Reconciled(Single(cfg, n, s, 2, map[], Both(cfg, n, s), {}), 0, Only(1)) ==
            Single(cfg, n, s, 2, map[r1 := n], Shared(cfg, n, s), {(n, r1)})
  {
    hide ReplicaName, DeriveServiceVip, Block, PlanOf, NodeAt, Recorded;
    NamesDiffer(s);
    SecondPlan(cfg, n, s);
    var st, b := Single(cfg, n, s, 2, map[], Both(cfg, n, s), {}), Block(cfg, n);
    RecordOn(n, {b + 2, b + 3}, st.used.byJail, ReplicaName(s, 1), b + 2);
    assert {b + 2, b + 3} - {b + 3} + {b + 2} == {b + 2};
    ExecTwo(st, PlanOf(st, 0), Only(1));
  }

  lemma OnePresent(cfg: Config, n: string, s: string, st: State)
    requires s in st.services && st.services[s].desired == 3 && st.nodes == map[n := NodeAt(cfg, n, 0)]
    requires st.placements == map[ReplicaName(s, 1) := n]
    ensures DiffReplicas(st.services[s].desired, Present(st, s, 0)) == ([0, 2], [])
  {
    hide ReplicaName, ReplicaIndex, DerivePodCidr;
    forall i: nat ensures i in Present(st, s, 0) <==> i == 1 {
      InPresent(st, s, 0, i);
      if i < TWO32 && ReplicaName(s, i) == ReplicaName(s, 1) { ReplicaNameInjective(s, i, s, 1); }
    }
    assert Present(st, s, 0) == {1};
    assert LowestMissing({1}, 2, 1) == [2];
    assert LowestMissing({1}, 1, 1) == [2];
    assert LowestMissing({1}, 0, 2) == [0, 2];
  }

  lemma ThirdPlan(cfg: Config, n: string, s: string)
    ensures Block(cfg, n) + 256 <= TWO32
    ensures var r1 := ReplicaName(s, 1);
            PlanOf(Single(cfg, n, s, 3, map[r1 := n], Shared(cfg, n, s), {(n, r1)}), 0) ==
            [Schedule(s, 0, n, Block(cfg, n) + 3, None), Schedule(s, 2, n, Block(cfg, n) + 2, None)]
  {
    hide ReplicaName, DeriveServiceVip, DerivePodCidr, FirstFreeAddress, PlanOf, Present, Recorded;
    BlockFits(cfg, n);
    NamesDiffer(s);
    var r1, b := ReplicaName(s, 1), Block(cfg, n);
    var st := Single(cfg, n, s, 3, map[r1 := n], Shared(cfg, n, s), {(n, r1)});
    OnePresent(cfg, n, s, st);
    FirstFreeIs(cfg, n, st.used, 3);
    RecordOn(n, {b + 2}, st.used.byJail, ReplicaName(s, 0), b + 3);
    FirstFreeIs(cfg, n, Recorded(st.used, ReplicaName(s, 0), n, b + 3), 2);
    TwoAdds(cfg, n, s, st, 0, 2, b + 3, b + 2);
  }

  lemma ThirdRound(cfg: Config, n: string, s: string)
    ensures var r1, r2 := ReplicaName(s, 1), ReplicaName(s, 2);
            var after := Reconciled(Single(cfg, n, s, 3, map[r1 := n], Shared(cfg, n, s), {(n, r1)}), 0, Always);
            && (n, r1) in after.jails && (n, r2) in after.jails
            && r1 in after.used.byJail && r2 in after.used.byJail && after.used.byJail[r1] == after.used.byJail[r2]
  {
    hide ReplicaName, DeriveServiceVip, Block, PlanOf, NodeAt, Recorded;
    NamesDiffer(s);
    ThirdPlan(cfg, n, s);
    var r0, r1, r2, b := ReplicaName(s, 0), ReplicaName(s, 1), ReplicaName(s, 2), Block(cfg, n);
    var st := Single(cfg, n, s, 3, map[r1 := n], Shared(cfg, n, s), {(n, r1)});
    RecordedEntries(st.used, r0, n, b + 3);
    RecordedEntries(Recorded(st.used, r0, n, b + 3), r2, n, b + 2);
    ExecTwo(st, PlanOf(st, 0), Always);
  }

  // ---------- what the run shows ----------

  lemma AfterNext(cfg: Config, run: seq<Step>, k: nat)
    requires k < |run|
    ensures After(cfg, Empty, run, 0) == Empty
    ensures After(cfg, Empty, run, k + 1) == Next(cfg, After(cfg, Empty, run, k), run[k])
  {
  }

  lemma UpToTwoReplicas(cfg: Config, n: string, s: string)
    ensures var run, r0, r1 := Scaled(n, s), ReplicaName(s, 0), ReplicaName(s, 1);
            After(cfg, Empty, run, 2) == Single(cfg, n, s, 2, map[r0 := n, r1 := n], Both(cfg, n, s), {(n, r0), (n, r1)})
  {
    hide ReplicaName, DeriveServiceVip, DerivePodCidr, Both, After, Reconciled, ApplyTo, Conflict;
    var run := Scaled(n, s);
    AfterNext(cfg, run, 0);
    AfterNext(cfg, run, 1);
    FirstService(cfg, After(cfg, Empty, run, 1), s, 2, Web, 80);
    FirstRound(cfg, n, s);
  }

  /** Deleting both jails directly leaves both entries behind. */
  lemma DirectDeletesLeaveEntries(cfg: Config, n: string, s: string)
    ensures After(cfg, Empty, Scaled(n, s), 4) == Single(cfg, n, s, 2, map[], Both(cfg, n, s), {})
  {
    hide ReplicaName, DeriveServiceVip, DerivePodCidr, Both, After;
    var run := Scaled(n, s);
    UpToTwoReplicas(cfg, n, s);
    NamesDiffer(s);
    AfterNext(cfg, run, 2);
    AfterNext(cfg, run, 3);
  }

  lemma DeletesPart(cfg: Config, n: string, s: string)
    ensures Parts(After(cfg, Empty, Scaled(n, s), 2), Scaled(n, s)[2]) && Parts(After(cfg, Empty, Scaled(n, s), 3), Scaled(n, s)[3])
  {
    hide ReplicaName, DeriveServiceVip, DerivePodCidr, After;
    UpToTwoReplicas(cfg, n, s);
    NamesDiffer(s);
    AfterNext(cfg, Scaled(n, s), 2);
  }

  lemma PartlyFailedRound(cfg: Config, n: string, s: string)
    ensures var r1 := ReplicaName(s, 1);
            After(cfg, Empty, Scaled(n, s), 5) == Single(cfg, n, s, 2, map[r1 := n], Shared(cfg, n, s), {(n, r1)})
  {
    hide ReplicaName, DeriveServiceVip, DerivePodCidr, Both, Shared, After, Reconciled, ApplyTo, Conflict;
    var run := Scaled(n, s);
    DirectDeletesLeaveEntries(cfg, n, s);
    AfterNext(cfg, run, 4);
    Accepted(cfg, n, s, 2, After(cfg, Empty, run, 4), 2);
    SecondRound(cfg, n, s);
  }

  /**
    * Whatever the prefixes, the node and the service: at the end two running replicas have one address. Only the two
    * direct deletes part entries from placements.
    */
  lemma StaleEntryIsReused(cfg: Config, n: string, s: string)
    ensures forall i | 0 <= i < 6 :: Parts(After(cfg, Empty, Scaled(n, s), i), Scaled(n, s)[i]) <==> i == 2 || i == 3
    ensures var st, r1, r2 := After(cfg, Empty, Scaled(n, s), 6), ReplicaName(s, 1), ReplicaName(s, 2);
            && r1 != r2 && (n, r1) in st.jails && (n, r2) in st.jails
            && r1 in st.used.byJail && r2 in st.used.byJail && st.used.byJail[r1] == st.used.byJail[r2]
  {
    hide ReplicaName, DeriveServiceVip, DerivePodCidr, Shared, After, Reconciled, ApplyTo, Conflict, Parts;
    var run, r1 := Scaled(n, s), ReplicaName(s, 1);
    NamesDiffer(s);
    DeletesPart(cfg, n, s);
    forall i | 0 <= i < 6 && i != 2 && i != 3 ensures !Parts(After(cfg, Empty, run, i), run[i]) {
      ServicesPartNothing(After(cfg, Empty, run, i), run[i]);
    }
    PartlyFailedRound(cfg, n, s);
    AfterNext(cfg, run, 5);
    Accepted(cfg, n, s, 2, After(cfg, Empty, run, 5), 3);
    ThirdRound(cfg, n, s);
  }
}
