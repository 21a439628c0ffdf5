/** Headroom scoring and the choice of a node. */
module Scheduler {
  import opened Text

  datatype NodeResources = NodeResources(
    id: string, capacityCpu: real, capacityMemory: nat, committedCpu: real, committedMemory: nat)

  function HeadroomScore(n: NodeResources): real {
    var cpu := if n.capacityCpu > 0.0 then (n.capacityCpu - n.committedCpu) / n.capacityCpu else 0.0;
    var mem := if n.capacityMemory > 0
               then (n.capacityMemory as real - n.committedMemory as real) / n.capacityMemory as real
               else 0.0;
    if cpu < mem then cpu else mem
  }

  /** The score is the scarcer of the two free fractions; a resource a node has none of counts as nothing free. */
  lemma HeadroomIsScarcest(n: NodeResources)
    ensures var h, cpu, mem := HeadroomScore(n), n.capacityCpu, n.capacityMemory as real;
            && (cpu > 0.0 ==> h * cpu <= cpu - n.committedCpu)
            && (mem > 0.0 ==> h * mem <= mem - n.committedMemory as real)
            && (cpu <= 0.0 || mem == 0.0 ==> h <= 0.0)
            && (|| (cpu > 0.0 && h * cpu == cpu - n.committedCpu)
                || (mem > 0.0 && h * mem == mem - n.committedMemory as real)
                || ((cpu <= 0.0 || mem == 0.0) && h == 0.0))
  {
    var h, cpu, mem := HeadroomScore(n), n.capacityCpu, n.capacityMemory as real;
    if cpu > 0.0 { Fraction(cpu - n.committedCpu, cpu, h); }
    if mem > 0.0 { Fraction(mem - n.committedMemory as real, mem, h); }
  }

  lemma Fraction(free: real, total: real, h: real)
    requires total > 0.0
    ensures h <= free / total ==> h * total <= free
    ensures h == free / total ==> h * total == free
  {
    var f := free / total;
    assert f * total == free;
    if h <= f { Scaled(h, f, total); }
  }

  lemma Scaled(a: real, b: real, c: real)
    requires a <= b && c > 0.0
    ensures a * c <= b * c
  {
  }

  /** A higher score wins; on equal scores the smaller id does. */
  predicate Beats(a: NodeResources, b: NodeResources) {
    || HeadroomScore(a) > HeadroomScore(b)
    || (HeadroomScore(a) == HeadroomScore(b) && Less(a.id, b.id))
  }

  lemma BeatsTransitive(a: NodeResources, b: NodeResources, c: NodeResources)
    requires !Beats(b, a) && !Beats(c, b)
    ensures !Beats(c, a)
  {
    LessTotal(a.id, b.id);
    LessTotal(b.id, c.id);
    LessTotal(a.id, c.id);
    if Less(a.id, b.id) && Less(b.id, c.id) { LessTransitive(a.id, b.id, c.id); }
  }

  /** The left fold over the candidates, after the first `k`. */
  function Best(nodes: seq<NodeResources>, k: nat): (r: NodeResources)
    requires 0 < k <= |nodes|
    ensures r in nodes[..k]
  {
    if k == 1 then nodes[0]
    else
      var current := Best(nodes, k - 1);
      if Beats(nodes[k - 1], current) then nodes[k - 1] else current
  }

  function PickNode(nodes: seq<NodeResources>): Option<string> {
    if nodes == [] then None else Some(Best(nodes, |nodes|).id)
  }

  lemma {:induction false} BestIsUnbeaten(nodes: seq<NodeResources>, k: nat)
    requires 0 < k <= |nodes|
    ensures forall n | n in nodes[..k] :: !Beats(n, Best(nodes, k))
  {
    LessTotal(nodes[k - 1].id, nodes[k - 1].id);
    if k > 1 {
      BestIsUnbeaten(nodes, k - 1);
      var old', new' := Best(nodes, k - 1), Best(nodes, k);
      LessTotal(nodes[k - 1].id, old'.id);
      forall n | n in nodes[..k] ensures !Beats(n, new') {
        if n in nodes[..k - 1] {
          BeatsTransitive(new', old', n);
        }
      }
    }
  }

  /** `b` has more headroom than `n`, or as much and no greater id. */
  predicate NotBeaten(b: NodeResources, n: NodeResources) {
    HeadroomScore(n) < HeadroomScore(b) || (HeadroomScore(n) == HeadroomScore(b) && (n.id == b.id || Less(b.id, n.id)))
  }

  /** `b` has the greatest headroom, and the smallest id among the nodes that share it. */
  predicate IsGreatest(nodes: seq<NodeResources>, b: NodeResources) {
    b in nodes && forall n | n in nodes :: NotBeaten(b, n)
  }

  lemma PickNodeIsGreatest(nodes: seq<NodeResources>)
    ensures PickNode(nodes).None? <==> nodes == []
    ensures nodes != [] ==> exists b :: IsGreatest(nodes, b) && PickNode(nodes) == Some(b.id)
  {
    if nodes != [] {
      var b := Best(nodes, |nodes|);
      assert nodes[..|nodes|] == nodes;
      BestIsUnbeaten(nodes, |nodes|);
      forall n | n in nodes ensures !Beats(n, b) && (n.id == b.id || Less(b.id, n.id) || Less(n.id, b.id)) {
        LessTotal(n.id, b.id);
      }
      assert IsGreatest(nodes, b);
    }
  }

  /** The choice depends only on which nodes are offered, not on the order they come in. */
  lemma PickNodeIgnoresOrder(a: seq<NodeResources>, b: seq<NodeResources>)
    requires forall n :: n in a <==> n in b
    ensures PickNode(a) == PickNode(b)
  {
    if a != [] { assert a[0] in b; }
    if b != [] { assert b[0] in a; }
    if a != [] {
      assert a[..|a|] == a && b[..|b|] == b;
      var x, y := Best(a, |a|), Best(b, |b|);
      BestIsUnbeaten(a, |a|);
      BestIsUnbeaten(b, |b|);
      assert !Beats(y, x) && !Beats(x, y);
      LessTotal(x.id, y.id);
    }
  }
}
