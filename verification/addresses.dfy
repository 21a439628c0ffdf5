/** Which pod addresses replicas hold, per node, and how a free one is chosen. */
module Addresses {
  import opened Text
  import opened Subnet

  /** The two tables: addresses taken per node, and the node and address of each jail. */
  datatype Used = Used(byNode: map<string, set<u32>>, byJail: map<string, (string, u32)>)

  function Taken(u: Used, node: string): set<u32> {
    if node in u.byNode then u.byNode[node] else {}
  }

  function Released(u: Used, jail: string): Used {
    if jail !in u.byJail then u
    else
      var (node, addr) := u.byJail[jail];
      var byNode := if node in u.byNode then u.byNode[node := u.byNode[node] - {addr}] else u.byNode;
      Used(byNode, u.byJail - {jail})
  }

  function Recorded(u: Used, jail: string, node: string, addr: u32): Used {
    var v := Released(u, jail);
    Used(v.byNode[node := Taken(v, node) + {addr}], v.byJail[jail := (node, addr)])
  }

  lemma RecordedEntries(u: Used, jail: string, node: string, addr: u32)
    ensures Recorded(u, jail, node, addr).byJail == u.byJail[jail := (node, addr)]
  {
  }

  /** The per-node sets are exactly the image of the per-jail map, and that map is injective. */
  ghost predicate Consistent(u: Used) {
    && (forall j :: j in u.byJail ==> u.byJail[j].1 in Taken(u, u.byJail[j].0))
    && (forall n, x :: x in Taken(u, n) ==> exists j :: j in u.byJail && u.byJail[j] == (n, x))
    && (forall j, k :: j in u.byJail && k in u.byJail && u.byJail[j] == u.byJail[k] ==> j == k)
  }

  lemma ReleaseConsistent(u: Used, jail: string)
    requires Consistent(u)
    ensures Consistent(Released(u, jail))
    ensures jail !in Released(u, jail).byJail
    ensures forall n :: Taken(Released(u, jail), n) <= Taken(u, n)
    ensures forall n, x :: x in Taken(u, n) && !(jail in u.byJail && u.byJail[jail] == (n, x))
              ==> x in Taken(Released(u, jail), n)
  {
    var v := Released(u, jail);
    forall n, x | x in Taken(v, n) ensures exists j :: j in v.byJail && v.byJail[j] == (n, x) {
      var j :| j in u.byJail && u.byJail[j] == (n, x);
      assert v.byJail[j] == (n, x);
    }
  }

  /** Recording an address no other jail holds on that node keeps the tables in step. */
  lemma RecordConsistent(u: Used, jail: string, node: string, addr: u32)
    requires Consistent(u)
    requires forall j :: j in u.byJail && j != jail ==> u.byJail[j] != (node, addr)
    ensures Consistent(Recorded(u, jail, node, addr))
  {
    ReleaseConsistent(u, jail);
    InsertConsistent(Released(u, jail), jail, node, addr);
  }

  lemma InsertConsistent(v: Used, jail: string, node: string, addr: u32)
    requires Consistent(v) && jail !in v.byJail
    requires forall j :: j in v.byJail ==> v.byJail[j] != (node, addr)
    ensures Consistent(Used(v.byNode[node := Taken(v, node) + {addr}], v.byJail[jail := (node, addr)]))
  {
    var w := Used(v.byNode[node := Taken(v, node) + {addr}], v.byJail[jail := (node, addr)]);
    forall n, x | x in Taken(w, n) ensures exists j :: j in w.byJail && w.byJail[j] == (n, x) {
      if n == node && x == addr {
        assert w.byJail[jail] == (n, x);
      } else {
        assert x in Taken(v, n);
        var j :| j in v.byJail && v.byJail[j] == (n, x);
        assert w.byJail[j] == (n, x);
      }
    }
  }

  /** Recording an address another jail holds there leaves two jails with one address. */
  lemma RecordTakenBreaks(u: Used, jail: string, node: string, addr: u32, other: string)
    requires other in u.byJail && other != jail && u.byJail[other] == (node, addr)
    ensures !Consistent(Recorded(u, jail, node, addr))
  {
    var w := Recorded(u, jail, node, addr);
    assert w.byJail[other] == w.byJail[jail];
  }

  // ---------- the allocator ----------

  /** First and last host address of a block (`Ipv4Net::hosts`). */
  function FirstHost(c: Cidr): nat {
    if c.len < 31 then Network(c) + 1 else Network(c)
  }

  function LastHost(c: Cidr): int {
    if c.len < 31 then Network(c) + HostCount(c) - 2 else Network(c) + HostCount(c) - 1
  }

  /** Every host address but the first, which the node's bridge keeps for itself. */
  predicate Assignable(c: Cidr, a: int) {
    FirstHost(c) < a <= LastHost(c)
  }

  function FirstFrom(c: Cidr, a: nat, taken: set<u32>): (r: Option<u32>)
    requires FirstHost(c) < a
    ensures r.Some? ==> Assignable(c, r.value) && a <= r.value && r.value !in taken
    ensures r.Some? ==> forall b: u32 | a <= b < r.value :: b in taken
    ensures r.None? ==> forall b: u32 | a <= b <= LastHost(c) :: b in taken
    decreases TWO32 - a
  {
    BlockInRange(c);
    if a > LastHost(c) then None
    else if a !in taken then Some(a)
    else FirstFrom(c, a + 1, taken)
  }

  /** The lowest assignable address not taken on the node; none exactly when every assignable one is taken. */
  function FirstFreeAddress(c: Cidr, node: string, u: Used): (r: Option<u32>)
    ensures r.None? <==> forall a: u32 | Assignable(c, a) :: a in Taken(u, node)
    ensures r.Some? ==> Assignable(c, r.value) && r.value !in Taken(u, node)
    ensures r.Some? ==> forall a: u32 | Assignable(c, a) && a < r.value :: a in Taken(u, node)
  {
    FirstFrom(c, FirstHost(c) + 1, Taken(u, node))
  }

  /** A /24 block has 253 assignable addresses (network+2 to network+254) and is refused only when all 253 are taken. */
  lemma RefusalNeedsFullBlock(c: Cidr, node: string, u: Used)
    requires c.len == POD_PREFIX_LEN
    ensures FirstFreeAddress(c, node, u).None? ==> |Taken(u, node)| >= 253
  {
    Pow2Of32();
    BlockInRange(c);
    if FirstFreeAddress(c, node, u).None? {
      var lo, hi := Network(c) + 2, Network(c) + 254;
      assert Range(lo, hi) <= Taken(u, node);
      SubsetSize(Range(lo, hi), Taken(u, node));
    }
  }

  function Range(lo: nat, hi: nat): (s: set<u32>)
    requires lo <= hi < TWO32
    ensures forall a: u32 :: a in s <==> lo <= a <= hi
    ensures |s| == hi - lo + 1
    decreases hi
  {
    if lo == hi then {lo} else Range(lo, hi - 1) + {hi}
  }

  lemma {:induction false} SubsetSize<T>(a: set<T>, b: set<T>)
    requires a <= b
    ensures |a| <= |b|
    decreases |a|
  {
    if a != {} {
      var x :| x in a;
      SubsetSize(a - {x}, b - {x});
    }
  }

  /** The table the control plane keeps. */
  class UsedAddresses {
    var usedByNode: map<string, set<u32>>
    var byJail: map<string, (string, u32)>

    ghost function Tables(): Used
      reads this
    {
      Used(usedByNode, byJail)
    }

    constructor ()
      ensures Tables() == Used(map[], map[]) && Consistent(Tables())
    {
      usedByNode, byJail := map[], map[];
    }

    /** The tables move together: the jail's old address is freed on whichever node held it. */
    method Record(jail: string, node: string, addr: u32)
      modifies this
      ensures Tables() == Recorded(old(Tables()), jail, node, addr)
      ensures old(Consistent(Tables())) && (forall j :: j in old(byJail) && j != jail ==> old(byJail)[j] != (node, addr)) ==>
                Consistent(Tables())
    {
      if forall j :: j in byJail && j != jail ==> byJail[j] != (node, addr) {
        if Consistent(Tables()) { RecordConsistent(Tables(), jail, node, addr); }
      }
      Release(jail);
      var taken := if node in usedByNode then usedByNode[node] else {};
      usedByNode := usedByNode[node := taken + {addr}];
      byJail := byJail[jail := (node, addr)];
    }

    method Release(jail: string)
      modifies this
      ensures Tables() == Released(old(Tables()), jail)
      ensures old(Consistent(Tables())) ==> Consistent(Tables())
    {
      if Consistent(Tables()) { ReleaseConsistent(Tables(), jail); }
      if jail in byJail {
        var (node, addr) := byJail[jail];
        byJail := byJail - {jail};
        if node in usedByNode {
          usedByNode := usedByNode[node := usedByNode[node] - {addr}];
        }
      }
    }
  }
}
