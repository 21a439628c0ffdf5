/** The node registry: registration, liveness and pod blocks. */
module Registry {
  import opened Text
  import opened Environment
  import opened Subnet
  import opened Scheduler

  const DEAD_THRESHOLD: nat := Seconds(15)

  datatype Node = Node(
    addr: string, replicateAddr: Option<string>, lastHeartbeat: nat,
    capacityCpu: real, capacityMemory: nat, committedCpu: real, committedMemory: nat,
    pod: Cidr, running: map<string, bool>)

  type Nodes = map<string, Node>

  predicate Alive(nodes: Nodes, id: string, now: nat) {
    id in nodes && Elapsed(now, nodes[id].lastHeartbeat) < DEAD_THRESHOLD
  }

  lemma AliveIsKnown(nodes: Nodes, id: string, now: nat)
    requires Alive(nodes, id, now)
    ensures id in nodes
  {
  }

  datatype Resolution = Resolved(addr: string) | Unknown | Dead(lastSeen: nat)

  /** Where to forward a call: only a node heard of recently enough has an address. */
  function Resolve(nodes: Nodes, id: string, now: nat): (r: Resolution)
    ensures r.Resolved? <==> Alive(nodes, id, now)
    ensures r.Resolved? ==> id in nodes && r.addr == nodes[id].addr
    ensures r.Unknown? <==> id !in nodes
    ensures r.Dead? ==> id in nodes && r.lastSeen == Elapsed(now, nodes[id].lastHeartbeat)
  {
    if id !in nodes then Unknown
    else if Elapsed(now, nodes[id].lastHeartbeat) >= DEAD_THRESHOLD then Dead(Elapsed(now, nodes[id].lastHeartbeat))
    else Resolved(nodes[id].addr)
  }

  /** Every node has the block its id derives, and no two nodes have the same block. */
  ghost predicate ValidNodes(nodes: Nodes, cluster: Cidr)
    requires cluster.len <= POD_PREFIX_LEN
  {
    && (forall id | id in nodes :: nodes[id].pod == DerivePodCidr(id, cluster))
    && (forall a, b | a in nodes && b in nodes && nodes[a].pod == nodes[b].pod :: a == b)
  }

  /** An address inside two registered nodes' blocks means the nodes are one. */
  lemma BlocksSeparateNodes(nodes: Nodes, cluster: Cidr, a: string, b: string, x: int)
    requires cluster.len <= POD_PREFIX_LEN && ValidNodes(nodes, cluster)
    requires a in nodes && b in nodes && Contains(nodes[a].pod, x) && Contains(nodes[b].pod, x)
    ensures a == b
  {
    PodBlocksDisjoint(nodes[a].pod, nodes[b].pod, x);
  }

  predicate Collides(nodes: Nodes, id: string, pod: Cidr) {
    exists other | other in nodes :: other != id && nodes[other].pod == pod
  }

  /** A fresh registration record; re-registering forgets committed resources and jail health. */
  function Registered(nodes: Nodes, cluster: Cidr, id: string, addr: string, replicateAddr: Option<string>,
                      cpu: real, memory: nat, now: nat): Nodes
    requires cluster.len <= POD_PREFIX_LEN
  {
    var pod := DerivePodCidr(id, cluster);
    if Collides(nodes, id, pod) then nodes
    else nodes[id := Node(addr, replicateAddr, now, cpu, memory, 0.0, 0, pod, map[])]
  }

  function Beaten(nodes: Nodes, id: string, cpu: real, memory: nat, jails: map<string, bool>, now: nat): Nodes {
    if id !in nodes then nodes
    else nodes[id := nodes[id].(lastHeartbeat := now, committedCpu := cpu, committedMemory := memory, running := jails)]
  }

  ghost predicate KeepsBlocks(before: Nodes, after: Nodes) {
    forall n | n in before :: n in after && after[n].pod == before[n].pod
  }

  /** A node keeps its block for as long as the registry lives, and only a new node can be refused one. */
  lemma RegisteredKeepsBlocks(nodes: Nodes, cluster: Cidr, id: string, addr: string, replicateAddr: Option<string>,
                              cpu: real, memory: nat, now: nat)
    requires cluster.len <= POD_PREFIX_LEN && ValidNodes(nodes, cluster)
    ensures var after := Registered(nodes, cluster, id, addr, replicateAddr, cpu, memory, now);
            ValidNodes(after, cluster) && KeepsBlocks(nodes, after)
    ensures Collides(nodes, id, DerivePodCidr(id, cluster)) ==> id !in nodes
  {
    var pod := DerivePodCidr(id, cluster);
    assert id in nodes ==> nodes[id].pod == pod;
    if !Collides(nodes, id, pod) {
      InsertKeepsBlocks(nodes, id, Node(addr, replicateAddr, now, cpu, memory, 0.0, 0, pod, map[]));
    }
  }

  lemma InsertKeepsBlocks(nodes: Nodes, id: string, n: Node)
    requires forall a, b | a in nodes && b in nodes && nodes[a].pod == nodes[b].pod :: a == b
    requires !Collides(nodes, id, n.pod)
    requires id in nodes ==> nodes[id].pod == n.pod
    ensures var after := nodes[id := n];
            && KeepsBlocks(nodes, after)
            && forall a, b | a in after && b in after && after[a].pod == after[b].pod :: a == b
  {
  }

  lemma BeatenKeepsBlocks(nodes: Nodes, cluster: Cidr, id: string, cpu: real, memory: nat, jails: map<string, bool>, now: nat)
    requires cluster.len <= POD_PREFIX_LEN && ValidNodes(nodes, cluster)
    ensures var after := Beaten(nodes, id, cpu, memory, jails, now);
            ValidNodes(after, cluster) && KeepsBlocks(nodes, after)
  {
    var after := Beaten(nodes, id, cpu, memory, jails, now);
    assert forall n | n in after :: n in nodes && after[n].pod == nodes[n].pod;
  }

  /** A heartbeat keeps a node alive for 15 s, shows what it reported, and leaves the rest of the table alone. */
  lemma HeardFor15s(nodes: Nodes, id: string, cpu: real, memory: nat, jails: map<string, bool>, now: nat, t: nat)
    requires id in nodes && now <= t
    ensures var after := Beaten(nodes, id, cpu, memory, jails, now);
            && after.Keys == nodes.Keys && (forall n | n in nodes && n != id :: after[n] == nodes[n])
            && (Alive(after, id, t) <==> t < now + Seconds(15))
            && after[id].committedCpu == cpu && after[id].committedMemory == memory && after[id].running == jails
            && after[id].addr == nodes[id].addr && after[id].replicateAddr == nodes[id].replicateAddr
            && after[id].capacityCpu == nodes[id].capacityCpu && after[id].capacityMemory == nodes[id].capacityMemory
            && after[id].pod == nodes[id].pod
  {
  }

  /** A registration that is not refused does the same for what it brings, with nothing committed yet. */
  lemma RegisteredFor15s(nodes: Nodes, cluster: Cidr, id: string, addr: string, replicateAddr: Option<string>,
                         cpu: real, memory: nat, now: nat, t: nat)
    requires cluster.len <= POD_PREFIX_LEN && now <= t
    requires forall n | n in nodes && n != id :: nodes[n].pod != DerivePodCidr(id, cluster)
    ensures var after := Registered(nodes, cluster, id, addr, replicateAddr, cpu, memory, now);
            && after.Keys == nodes.Keys + {id} && (forall n | n in nodes && n != id :: after[n] == nodes[n])
            && (Alive(after, id, t) <==> t < now + Seconds(15))
            && after[id].addr == addr && after[id].replicateAddr == replicateAddr
            && after[id].capacityCpu == cpu && after[id].capacityMemory == memory
            && after[id].committedCpu == 0.0 && after[id].committedMemory == 0 && after[id].running == map[]
  {
    hide DerivePodCidr;
  }

  function ResourcesOf(id: string, n: Node): NodeResources {
    NodeResources(id, n.capacityCpu, n.capacityMemory, n.committedCpu, n.committedMemory)
  }

  /** The alive nodes among the first `k` ids of `order`. */
  function AliveAmong(nodes: Nodes, order: seq<string>, now: nat, k: nat): seq<NodeResources>
    requires k <= |order|
  {
    if k == 0 then []
    else
      var rest := AliveAmong(nodes, order, now, k - 1);
      var id := order[k - 1];
      if Alive(nodes, id, now) then rest + [ResourcesOf(id, nodes[id])] else rest
  }

  /** `list(now)` (sorted by id) cut down to the alive nodes. */
  ghost function AliveNodes(nodes: Nodes, now: nat): seq<NodeResources> {
    var order := SortedKeys(nodes.Keys);
    AliveAmong(nodes, order, now, |order|)
  }

  lemma {:induction false} AliveAmongMembers(nodes: Nodes, order: seq<string>, now: nat, k: nat)
    requires k <= |order|
    ensures forall r | r in AliveAmong(nodes, order, now, k) ::
              Alive(nodes, r.id, now) && r == ResourcesOf(r.id, nodes[r.id])
    ensures forall i | 0 <= i < k && Alive(nodes, order[i], now) ::
              ResourcesOf(order[i], nodes[order[i]]) in AliveAmong(nodes, order, now, k)
  {
    if k > 0 { AliveAmongMembers(nodes, order, now, k - 1); }
  }

  lemma AliveNodesMembers(nodes: Nodes, now: nat)
    ensures forall r | r in AliveNodes(nodes, now) :: Alive(nodes, r.id, now) && r == ResourcesOf(r.id, nodes[r.id])
    ensures forall id | Alive(nodes, id, now) :: ResourcesOf(id, nodes[id]) in AliveNodes(nodes, now)
  {
    var order := SortedKeys(nodes.Keys);
    AliveAmongMembers(nodes, order, now, |order|);
    forall id | Alive(nodes, id, now) ensures ResourcesOf(id, nodes[id]) in AliveNodes(nodes, now) {
      assert id in order;
    }
  }

  datatype RegisterReply = Assigned(pod: Cidr) | PodCidrCollision(conflicting: string)

  class NodeRegistry {
    const cluster: Cidr
    var nodes: Nodes

    ghost predicate Valid()
      reads this
    {
      cluster.len <= POD_PREFIX_LEN && ValidNodes(nodes, cluster)
    }

    constructor (clusterCidr: Cidr)
      requires clusterCidr.len <= POD_PREFIX_LEN
      ensures Valid() && nodes == map[] && cluster == clusterCidr
    {
      cluster, nodes := clusterCidr, map[];
    }

    method Register(id: string, addr: string, replicateAddr: Option<string>, cpu: real, memory: nat, now: nat)
      returns (reply: RegisterReply)
      requires Valid()
      modifies this
      ensures Valid()
      ensures nodes == Registered(old(nodes), cluster, id, addr, replicateAddr, cpu, memory, now)
      ensures reply.Assigned? <==> forall n | n in old(nodes) && n != id :: old(nodes)[n].pod != DerivePodCidr(id, cluster)
      ensures reply.Assigned? ==> id in nodes && reply.pod == nodes[id].pod
      ensures reply.PodCidrCollision? ==> reply.conflicting in nodes && reply.conflicting != id &&
                                          nodes[reply.conflicting].pod == DerivePodCidr(id, cluster)
    {
      RegisteredKeepsBlocks(nodes, cluster, id, addr, replicateAddr, cpu, memory, now);
      var pod := DerivePodCidr(id, cluster);
      if exists other | other in nodes :: other != id && nodes[other].pod == pod {
        var other :| other in nodes && other != id && nodes[other].pod == pod;
        return PodCidrCollision(other);
      }
      nodes := nodes[id := Node(addr, replicateAddr, now, cpu, memory, 0.0, 0, pod, map[])];
      reply := Assigned(pod);
    }

    method Heartbeat(id: string, cpu: real, memory: nat, jails: map<string, bool>, now: nat) returns (known: bool)
      requires Valid()
      modifies this
      ensures Valid()
      ensures known <==> id in old(nodes)
      ensures nodes == Beaten(old(nodes), id, cpu, memory, jails, now)
    {
      BeatenKeepsBlocks(nodes, cluster, id, cpu, memory, jails, now);
      known := id in nodes;
      if known {
        nodes := nodes[id := nodes[id].(lastHeartbeat := now, committedCpu := cpu, committedMemory := memory, running := jails)];
      }
    }

    /** Lists the alive nodes in id order, however the hash map happens to iterate. */
    method ListAlive(now: nat) returns (r: seq<NodeResources>)
      ensures r == AliveNodes(nodes, now)
    {
      var order := SortKeys(nodes.Keys);
      EnumerationUnique(order, SortedKeys(nodes.Keys), nodes.Keys);
      r := [];
      for k := 0 to |order|
        invariant r == AliveAmong(nodes, order, now, k)
      {
        var id := order[k];
        if Alive(nodes, id, now) {
          r := r + [ResourcesOf(id, nodes[id])];
        }
      }
    }
  }
}
