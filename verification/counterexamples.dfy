/** Runs of the control plane that show why the safety results exclude what they exclude. */
module Counterexamples {
  import opened Text
  import opened Environment
  import opened Subnet
  import opened Addresses
  import opened Scheduler
  import opened Registry
  import opened Services
  import opened Plan
  import opened Convergence
  import opened PlanAddresses
  import opened Protocol
  import opened SingleHolder
  import opened AddressRuns

  // ---------- four nodes and a service with a volume ----------

  const Net: Config := Prefixes(Prefix(0x0A00_0000, 8), Prefix(0x0B00_0000, 16))

  const Db := Template("", [VolumeMount("data", "/data", "1G")])
  const R := ReplicaName("db", 0)

  function Join(id: string, now: nat): Step { Register(id, id, Some(id), 1.0, 1, now) }

  function NodeAt(cfg: Config, id: string, now: nat): Node {
    Node(id, Some(id), now, 1.0, 1, 0.0, 0, DerivePodCidr(id, cfg.cluster), map[])
  }

  /** `a` takes the replica, dies, and `b` is promoted; then `b` dies and `c` is promoted while `a` is still owed its fence. */
  const Failover: seq<Step> := [
    Join("a", 0),
    Join("b", Seconds(10)),
    ApplyService("db", 1, Db, 5432, Seconds(10), Always),
    Join("c", Seconds(20)),
    ForceRepin(R, Seconds(20), true, true),
    Join("d", Seconds(30)),
    ForceRepin(R, Seconds(30), true, true)]

  /** After the first promotion `a` comes back, and the replica is deleted directly there before its fence is discharged. */
  const Deleted: seq<Step> := Failover[..5] + [Join("a", Seconds(20)), DeleteJail("a", R, Seconds(20), true)]

  lemma OneByte(s: string, b: bv8)
    requires Utf8(s) == [b]
    ensures NameHash(s) == Mix(FNV_OFFSET_BASIS, b) as u32
  {
    hide Utf8, Mix;
    FnvSnoc([b], 0);
    assert [b][..1] == [b] && [b][..0] == [];
  }

  lemma Bytes()
    ensures Utf8("a") == [0x61] && Utf8("b") == [0x62] && Utf8("c") == [0x63] && Utf8("d") == [0x64]
  {
    assert "a"[..0] == "" && "b"[..0] == "" && "c"[..0] == "" && "d"[..0] == "";
  }

  lemma Hashes()
    ensures NameHash("a") == 0xe40c_292c && NameHash("b") == 0xe70c_2de5
    ensures NameHash("c") == 0xe60c_2c52 && NameHash("d") == 0xe10c_2473
  {
    hide Utf8, Fnv, NameHash;
    Bytes();
    OneByte("a", 0x61);
    OneByte("b", 0x62);
    OneByte("c", 0x63);
    OneByte("d", 0x64);
  }

  /** The four ids derive four different blocks. */
  lemma BlocksDiffer()
    ensures forall i, j | i in {"a", "b", "c", "d"} && j in {"a", "b", "c", "d"} &&
              DerivePodCidr(i, Net.cluster) == DerivePodCidr(j, Net.cluster) :: i == j
  {
    hide NameHash, DerivePodCidr;
    Hashes();
    assert Pow2(16) == 0x1_0000 by {
      Pow2Of32();
      Pow2Sum(8, 8);
    }
    var ids := {"a", "b", "c", "d"};
    assert forall i, j | i in ids && j in ids && NameHash(i) % 0x1_0000 == NameHash(j) % 0x1_0000 :: i == j;
    forall i, j | i in ids && j in ids && i != j ensures DerivePodCidr(i, Net.cluster) != DerivePodCidr(j, Net.cluster) {
      SameBlockIff(i, j, Net.cluster);
    }
  }

  // ---------- the run, state by state ----------

  lemma JoinStep(st: State, id: string, now: nat)
    requires !Collides(st.nodes, id, DerivePodCidr(id, Net.cluster))
    ensures Next(Net, st, Join(id, now)) == st.(nodes := st.nodes[id := NodeAt(Net, id, now)])
  {
    hide Collides, DerivePodCidr;
  }

  /** While only these ids are registered, a new one of them is never refused. */
  lemma NoCollision(st: State, id: string)
    requires id in {"a", "b", "c", "d"} && st.nodes.Keys <= {"a", "b", "c", "d"}
    requires forall n | n in st.nodes :: st.nodes[n].pod == DerivePodCidr(n, Net.cluster)
    ensures !Collides(st.nodes, id, DerivePodCidr(id, Net.cluster))
  {
    hide DerivePodCidr;
    BlocksDiffer();
  }

  /** The service runs on `primary` with `standby` behind it, on these nodes; `fence` is owed by that node, if any. */
  ghost predicate Serving(st: State, nodes: Nodes, primary: string, standby: string, fences: map<string, string>, holders: set<string>) {
    && st.nodes == nodes
    && st.services.Keys == {"db"} && st.services["db"].template == Db
    && st.placements == map[R := primary] && st.standbys == map[R := standby] && st.fences == fences
    && st.used.byJail.Keys == {R} && st.used.byJail[R].0 == primary && Consistent(st.used)
    && st.jails == set n | n in holders :: (n, R)
  }

  lemma ServingIsStateful(st: State)
    requires "db" in st.services && st.services["db"].template == Db
    ensures StatefulReplica(st, R)
  {
    hide ReplicaName, ReplicaIndex;
    ReplicaIndexIff("db", R, 0);
    assert Owns(st.services, "db", R) && Stateful(st.services["db"]);
  }

  /** A promotion can be prepared when the standby and one other node are all that is alive. */
  lemma Prepares(st: State, p: string, q: string, b: string, now: nat)
    requires st.services.Keys == {"db"} && st.placements == map[R := p] && st.standbys == map[R := q]
    requires p != q && q != b && !Alive(st.nodes, p, now) && forall n :: Alive(st.nodes, n, now) <==> n == q || n == b
    requires q in st.nodes && st.nodes[q].pod.len == POD_PREFIX_LEN && b in st.nodes && st.nodes[b].replicateAddr.Some?
    requires Taken(st.used, q) == {}
    ensures var prep := PrepareForceRepin(st, R, now);
            prep.Prepared? && prep.primary == p && prep.standby == q && prep.backup == b && prep.address !in Taken(st.used, q)
  {
    hide ReplicaName, ReplicaIndex, Pick, OwnerOf, FirstFreeAddress, Assignable, Alive, Taken;
    ReplicaIndexIff("db", R, 0);
    assert Owns(st.services, "db", R);
    OwnerIs(R, st.placements, st.services, "db");
    PickAlive(st, now, {p, q});
    assert Alive(st.nodes, b, now);
    assert Pick(st, now, {p, q}) == Some(b);
    RefusalNeedsFullBlock(st.nodes[q].pod, q, st.used);
  }

  lemma Promote(st: State, nodes: Nodes, p: string, q: string, b: string, fences: map<string, string>, holders: set<string>, now: nat)
    requires Serving(st, nodes, p, q, fences, holders)
    requires p != q && q != b && !Alive(nodes, p, now) && forall n :: Alive(nodes, n, now) <==> n == q || n == b
    requires q in nodes && nodes[q].pod.len == POD_PREFIX_LEN && b in nodes && nodes[b].replicateAddr.Some?
    ensures Serving(ForceRepinStep(st, R, now, true, true), nodes, q, b, fences[R := p], holders + {q})
  {
    hide ReplicaName, PrepareForceRepin, Alive, Consistent, Recorded, Taken;
    NothingTaken(st.used, q);
    Prepares(st, p, q, b, now);
    var x := PrepareForceRepin(st, R, now).address;
    RecordedEntries(st.used, R, q, x);
    NotTaken(st.used, q, x);
    RecordConsistent(st.used, R, q, x);
  }

  lemma NothingTaken(u: Used, node: string)
    requires Consistent(u) && forall j | j in u.byJail :: u.byJail[j].0 != node
    ensures Taken(u, node) == {}
  {
  }

  /** With a single service the plan is that service's plan. */
  lemma OneServicePlan(st: State, now: nat, s: string)
    requires st.services.Keys == {s}
    ensures PlanOf(st, now) == PlanService(st, now, s, Work([], st.used, {})).actions
  {
    hide PlanService;
    var order := SortedKeys(st.services.Keys);
    EnumerationUnique(order, [s], st.services.Keys);
    assert PlanServices(st, now, [s], 1) == PlanService(st, now, s, PlanServices(st, now, [s], 0));
  }

  /** Two nodes with all their capacity free: the smaller id is chosen, and the other becomes the standby. */
  lemma SmallerId(st: State, now: nat)
    requires st.nodes.Keys == {"a", "b"}
    requires Alive(st.nodes, "a", now) && Alive(st.nodes, "b", now)
    requires forall n | n in st.nodes :: HeadroomScore(ResourcesOf(n, st.nodes[n])) == 1.0
    ensures Pick(st, now, {}) == Some("a") && Pick(st, now, {"a"}) == Some("b")
  {
    hide HeadroomScore, AliveNodes, PickNode;
    PickAlive(st, now, {"a"});
    AliveNodesMembers(st.nodes, now);
    var idle := Idle(AliveNodes(st.nodes, now), {});
    var a := ResourcesOf("a", st.nodes["a"]);
    assert a in idle;
    PickNodeIsGreatest(idle);
    var best :| IsGreatest(idle, best) && PickNode(idle) == Some(best.id);
    assert !Less("b", "a");
  }

  /** A service of a name nobody uses is accepted as long as no other service exists. */
  lemma FirstService(cfg: Config, st: State, name: string, desired: u32, template: Template, port: nat)
    requires st.services == map[] && st.placements == map[]
    ensures ServiceApplied(st, cfg.service, name, desired, template, port) ==
            Applied(map[name := ServiceRecord(desired, template, DeriveServiceVip(name, cfg.service, 0), port)])
  {
    hide DeriveServiceVip;
    ConflictIff(st, name, desired, 0);
    assert Vips(st.services) == {};
  }

  lemma FirstPlan(st: State, now: nat) returns (x: u32)
    requires st.nodes.Keys == {"a", "b"} && Alive(st.nodes, "a", now) && Alive(st.nodes, "b", now)
    requires forall n | n in st.nodes ::
               && HeadroomScore(ResourcesOf(n, st.nodes[n])) == 1.0
               && st.nodes[n].pod.len == POD_PREFIX_LEN && st.nodes[n].replicateAddr.Some?
    requires st.services.Keys == {"db"} && st.services["db"].template == Db && st.services["db"].desired == 1
    requires st.placements == map[] && st.used == Used(map[], map[])
    ensures PlanOf(st, now) == [Schedule("db", 0, "a", x, Some("b"))]
  {
    hide ReplicaName, ReplicaIndex, Pick, FirstFreeAddress, Alive, HeadroomScore, Recorded;
    OneServicePlan(st, now, "db");
    SmallerId(st, now);
    assert Present(st, "db", now) == {} && Hosting("db", st.placements) == {};
    var add: seq<nat> := [0];
    assert LowestMissing({}, 0, 1) == add;
    var w := Work([], st.used, {});
    assert PlanAdds(st, now, "db", add, w, 1) == PlanAdd(st, now, "db", 0, w);
    RefusalNeedsFullBlock(st.nodes["a"].pod, "a", st.used);
    x := FirstFreeAddress(st.nodes["a"].pod, "a", st.used).value;
    assert {} + {"a"} == {"a"};
  }

  const Two: Nodes := map["a" := NodeAt(Net, "a", 0), "b" := NodeAt(Net, "b", Seconds(10))]
  const Three: Nodes := Two["c" := NodeAt(Net, "c", Seconds(20))]
  const Four: Nodes := Three["d" := NodeAt(Net, "d", Seconds(30))]

  lemma FirstApply()
    ensures Serving(Next(Net, Empty.(nodes := Two), Failover[2]), Two, "a", "b", map[], {"a"})
  {
    hide ReplicaName, DerivePodCidr, DeriveServiceVip, Conflict, ApplyTo, Reconciled, Serving, NodeAt;
    var st, now := Empty.(nodes := Two), Seconds(10);
    FirstService(Net, st, "db", 1, Db, 5432);
    FirstServing(DeriveServiceVip("db", Net.service, 0));
  }

  lemma TwoReady()
    ensures Alive(Two, "a", Seconds(10)) && Alive(Two, "b", Seconds(10))
    ensures forall n | n in Two ::
              && HeadroomScore(ResourcesOf(n, Two[n])) == 1.0
              && Two[n].pod.len == POD_PREFIX_LEN && Two[n].replicateAddr.Some?
  {
    hide DerivePodCidr;
  }

  lemma FirstServing(vip: u32)
    ensures Serving(Reconciled(Empty.(nodes := Two, services := map["db" := ServiceRecord(1, Db, vip, 5432)]), Seconds(10), Always),
                    Two, "a", "b", map[], {"a"})
  {
    hide ReplicaName, PlanOf, Recorded, DerivePodCidr, Consistent, NodeAt, Alive, HeadroomScore;
    TwoReady();
    var st := Empty.(nodes := Two, services := map["db" := ServiceRecord(1, Db, vip, 5432)]);
    var x := FirstPlan(st, Seconds(10));
    var acts := PlanOf(st, Seconds(10));
    assert Exec(st, acts, Always, 1) == ExecAction(Exec(st, acts, Always, 0), acts[0], true);
    NothingRecorded();
    RecordedEntries(st.used, R, "a", x);
    RecordConsistent(st.used, R, "a", x);
  }

  lemma NothingRecorded()
    ensures Consistent(Used(map[], map[]))
  {
  }

  lemma {:induction false} AfterPrefix(cfg: Config, st: State, a: seq<Step>, b: seq<Step>, k: nat)
    requires k <= |a| && k <= |b| && a[..k] == b[..k]
    ensures After(cfg, st, a, k) == After(cfg, st, b, k)
  {
    hide Next;
    if k > 0 {
      assert a[..k - 1] == a[..k][..k - 1] && b[..k - 1] == b[..k][..k - 1];
      assert a[k - 1] == a[..k][k - 1] && b[k - 1] == b[..k][k - 1];
      AfterPrefix(cfg, st, a, b, k - 1);
    }
  }

  lemma RunStep(run: seq<Step>, k: nat)
    requires k < |run|
    ensures After(Net, Empty, run, k + 1) == Next(Net, After(Net, Empty, run, k), run[k])
  {
  }

  lemma UpToTwoNodes()
    ensures After(Net, Empty, Failover, 2) == Empty.(nodes := Two)
  {
    hide Next, NodeAt, After, DerivePodCidr;
    assert After(Net, Empty, Failover, 0) == Empty by { NoStep(); }
    RunStep(Failover, 0);
    RunStep(Failover, 1);
    NoCollision(Empty, "a");
    JoinStep(Empty, "a", 0);
    var st := After(Net, Empty, Failover, 1);
    assert NodeAt(Net, "a", 0).pod == DerivePodCidr("a", Net.cluster) by { PodOf("a", 0); }
    NoCollision(st, "b");
    JoinStep(st, "b", Seconds(10));
  }

  lemma NoStep()
    ensures After(Net, Empty, Failover, 0) == Empty
  {
  }

  lemma PodOf(id: string, now: nat)
    ensures NodeAt(Net, id, now).pod == DerivePodCidr(id, Net.cluster) && NodeAt(Net, id, now).lastHeartbeat == now
    ensures NodeAt(Net, id, now).replicateAddr.Some?
  {
  }

  lemma JoinServing(st: State, id: string, now: nat, nodes: Nodes, p: string, q: string, fences: map<string, string>, holders: set<string>)
    requires Serving(st, nodes, p, q, fences, holders)
    requires id in {"a", "b", "c", "d"} && nodes.Keys <= {"a", "b", "c", "d"}
    requires forall n | n in nodes :: nodes[n].pod == DerivePodCidr(n, Net.cluster)
    ensures Serving(Next(Net, st, Join(id, now)), nodes[id := NodeAt(Net, id, now)], p, q, fences, holders)
  {
    hide Next, NodeAt, DerivePodCidr, Consistent, ReplicaName;
    NoCollision(st, id);
    JoinStep(st, id, now);
  }

  lemma Heartbeats()
    ensures forall n :: Alive(Three, n, Seconds(20)) <==> n == "b" || n == "c"
    ensures forall n :: Alive(Four, n, Seconds(30)) <==> n == "c" || n == "d"
  {
    hide DerivePodCidr;
  }

  lemma Blocks()
    ensures forall n | n in Four :: Four[n].pod == DerivePodCidr(n, Net.cluster) && Four[n].replicateAddr.Some?
    ensures forall n | n in Three :: n in Four && Three[n] == Four[n]
    ensures forall n | n in Two :: n in Three && Two[n] == Three[n]
  {
    hide DerivePodCidr;
  }

  /** The states around the first promotion. */
  lemma FirstPromotion()
    ensures Serving(After(Net, Empty, Failover, 4), Three, "a", "b", map[], {"a"})
    ensures Serving(After(Net, Empty, Failover, 5), Three, "b", "c", map[R := "a"], {"a", "b"})
  {
    hide After, Serving, Next, NodeAt, ReplicaName, PrepareForceRepin, StatefulReplica, Alive, DerivePodCidr;
    UpToTwoNodes();
    FirstApply();
    RunStep(Failover, 2);
    Blocks();
    Heartbeats();
    RunStep(Failover, 3);
    JoinServing(After(Net, Empty, Failover, 3), "c", Seconds(20), Two, "a", "b", map[], {"a"});
    RunStep(Failover, 4);
    Promote(After(Net, Empty, Failover, 4), Three, "a", "b", "c", map[], {"a"}, Seconds(20));
    RepinNext(After(Net, Empty, Failover, 4), Seconds(20));
    assert {"a"} + {"b"} == {"a", "b"};
  }

  /** And around the second. */
  lemma SecondPromotion()
    ensures Serving(After(Net, Empty, Failover, 6), Four, "b", "c", map[R := "a"], {"a", "b"})
    ensures Serving(After(Net, Empty, Failover, 7), Four, "c", "d", map[R := "b"], {"a", "b", "c"})
  {
    hide After, Serving, Next, NodeAt, ReplicaName, PrepareForceRepin, StatefulReplica, Alive, DerivePodCidr;
    FirstPromotion();
    Blocks();
    Heartbeats();
    RunStep(Failover, 5);
    JoinServing(After(Net, Empty, Failover, 5), "d", Seconds(30), Three, "b", "c", map[R := "a"], {"a", "b"});
    RunStep(Failover, 6);
    Promote(After(Net, Empty, Failover, 6), Four, "b", "c", "d", map[R := "a"], {"a", "b"}, Seconds(30));
    RepinNext(After(Net, Empty, Failover, 6), Seconds(30));
    assert {"a", "b"} + {"c"} == {"a", "b", "c"} && map[R := "a"][R := "b"] == map[R := "b"];
  }

  lemma RepinNext(st: State, now: nat)
    ensures Next(Net, st, ForceRepin(R, now, true, true)) == ForceRepinStep(st, R, now, true, true)
  {
  }

  // ---------- what the runs show ----------

  /** Up to its last step the run is one the safety results cover. */
  lemma FailoverIsCovered()
    ensures CoveredRun(Net, Failover, 6)
    ensures Held(After(Net, Empty, Failover, 6)) && AddressesOk(Net, After(Net, Empty, Failover, 6))
    ensures ValidServices(After(Net, Empty, Failover, 6).services, Net.service)
  {
    hide After, Held, AddressesOk, ValidServices, ReplicaName, Parts, FenceInTheWay, PrepareForceRepin, StatefulReplica, Consistent;
    FirstPromotion();
    assert !FenceInTheWay(After(Net, Empty, Failover, 4), R) by { NoFence(After(Net, Empty, Failover, 4)); }
    forall i | 0 <= i < 6 ensures !Parts(After(Net, Empty, Failover, i), Failover[i]) {
      ServicesPartNothing(After(Net, Empty, Failover, i), Failover[i]);
    }
    RunHeld(Net, Failover, 6);
    RunAddresses(Net, Failover, 6);
  }

  lemma NoFence(st: State)
    requires st.fences == map[]
    ensures !FenceInTheWay(st, R)
  {
  }

  /** A second force-repin before the first fence is discharged: node `a` still holds the replica and is owed nothing. */
  lemma SecondRepinLosesAHolder()
    ensures CoveredRun(Net, Failover, 6) && Held(After(Net, Empty, Failover, 6)) && AddressesOk(Net, After(Net, Empty, Failover, 6))
    ensures var st := After(Net, Empty, Failover, 7);
            StatefulReplica(st, R) && ("a", R) in st.jails && !Accounted(st, "a", R) && !Held(st)
  {
    hide After, AddressesOk, ReplicaName, StatefulReplica, Consistent, CoveredRun;
    FailoverIsCovered();
    SecondPromotion();
    ServingIsStateful(After(Net, Empty, Failover, 7));
  }

  /** Up to the direct delete, this run is covered too. */
  lemma BeforeTheDelete()
    ensures CoveredRun(Net, Deleted, 6) && Held(After(Net, Empty, Deleted, 6)) && AddressesOk(Net, After(Net, Empty, Deleted, 6))
    ensures Serving(After(Net, Empty, Deleted, 6), Three["a" := NodeAt(Net, "a", Seconds(20))], "b", "c", map[R := "a"], {"a", "b"})
  {
    hide After, Held, AddressesOk, ReplicaName, Next, NodeAt, DerivePodCidr, Parts, Loses, Consistent;
    FailoverIsCovered();
    FirstPromotion();
    forall i | 0 <= i <= 5 ensures After(Net, Empty, Deleted, i) == After(Net, Empty, Failover, i) {
      assert Deleted[..i] == Failover[..i];
      AfterPrefix(Net, Empty, Deleted, Failover, i);
    }
    Blocks();
    RunStep(Deleted, 5);
    JoinServing(After(Net, Empty, Deleted, 5), "a", Seconds(20), Three, "b", "c", map[R := "a"], {"a", "b"});
    forall i | 0 <= i < 6
      ensures Covered(Deleted[i]) && !Loses(After(Net, Empty, Deleted, i), Deleted[i])
      ensures !Parts(After(Net, Empty, Deleted, i), Deleted[i])
    {
      if i < 5 { assert Deleted[i] == Failover[i]; } else { JoinLosesNothing(After(Net, Empty, Deleted, 5), "a", Seconds(20)); }
      ServicesPartNothing(After(Net, Empty, Deleted, i), Deleted[i]);
    }
    RunHeld(Net, Deleted, 6);
    RunAddresses(Net, Deleted, 6);
  }

  lemma JoinLosesNothing(st: State, id: string, now: nat)
    ensures !Loses(st, Join(id, now))
  {
  }

  /** Deleting the replica directly on the fenced node `a` drops the placement of `b`, which still holds it. */
  lemma DirectDeleteLosesAHolder()
    ensures CoveredRun(Net, Deleted, 6) && Held(After(Net, Empty, Deleted, 6)) && AddressesOk(Net, After(Net, Empty, Deleted, 6))
    ensures var st := After(Net, Empty, Deleted, 7);
            StatefulReplica(st, R) && ("b", R) in st.jails && !Accounted(st, "b", R) && !Held(st)
  {
    hide After, AddressesOk, ReplicaName, StatefulReplica, Consistent, CoveredRun, DerivePodCidr, Next, Alive;
    BeforeTheDelete();
    var st := After(Net, Empty, Deleted, 6);
    RunStep(Deleted, 6);
    assert Alive(st.nodes, "a", Seconds(20)) by { JustJoined(Three, "a", Seconds(20)); }
    DeleteNext(st, "a", Seconds(20));
    ServingIsStateful(After(Net, Empty, Deleted, 7));
  }

  lemma JustJoined(nodes: Nodes, id: string, now: nat)
    ensures Alive(nodes[id := NodeAt(Net, id, now)], id, now)
  {
  }

  lemma DeleteNext(st: State, id: string, now: nat)
    requires Alive(st.nodes, id, now)
    ensures Next(Net, st, DeleteJail(id, R, now, true)) == Unplaced(st, R, id)
  {
    hide Alive, ReplicaName;
  }
}
