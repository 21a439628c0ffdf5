/** Services: the table of desired replicas, replica diffs, ownership of names and node choice. */
module Services {
  import opened Text
  import opened Subnet
  import opened Scheduler

  datatype VolumeMount = VolumeMount(name: string, mountPath: string, size: string)

  /** A jail template; `body` stands for every field but the volumes and is only ever compared. */
  datatype Template = Template(body: string, volumes: seq<VolumeMount>)

  datatype ServiceRecord = ServiceRecord(desired: u32, template: Template, vip: u32, port: nat)

  type ServiceMap = map<string, ServiceRecord>

  predicate Stateful(r: ServiceRecord) { r.template.volumes != [] }

  // ---------- creating and updating services ----------

  datatype ApplyError =
    | NameConflict(name: string, owner: Owner)
    | TemplateChanged(service: string)
    | PortChanged(service: string)
    | VipPoolExhausted(service: string)

  datatype ApplyResult = Applied(services: ServiceMap) | Refused(error: ApplyError)

  function Vips(services: ServiceMap): set<u32> {
    set s | s in services :: services[s].vip
  }

  /** The first probe from `attempt` on whose address is not taken. */
  function FirstVip(name: string, cidr: Cidr, taken: set<u32>, attempt: nat): (r: Option<u32>)
    requires cidr.len > 0 && attempt <= HostCount(cidr)
    ensures r.Some? ==> r.value !in taken && Contains(cidr, r.value)
    ensures r.Some? ==> exists t :: attempt <= t < HostCount(cidr) && r.value == DeriveServiceVip(name, cidr, t) &&
                                    forall u | attempt <= u < t :: DeriveServiceVip(name, cidr, u) in taken
    ensures r.None? ==> forall t | attempt <= t < HostCount(cidr) :: DeriveServiceVip(name, cidr, t) in taken
    decreases HostCount(cidr) - attempt
  {
    if attempt == HostCount(cidr) then None
    else if DeriveServiceVip(name, cidr, attempt) !in taken then
      Some(DeriveServiceVip(name, cidr, attempt))
    else FirstVip(name, cidr, taken, attempt + 1)
  }

  function ApplyTo(services: ServiceMap, cidr: Cidr, name: string, desired: u32, template: Template, port: nat): ApplyResult
    requires cidr.len > 0
  {
    if name in services then
      if services[name].template != template then Refused(TemplateChanged(name))
      else if services[name].port != port then Refused(PortChanged(name))
      else Applied(services[name := ServiceRecord(desired, template, services[name].vip, port)])
    else
      match FirstVip(name, cidr, Vips(services), 0)
      case None => Refused(VipPoolExhausted(name))
      case Some(vip) => Applied(services[name := ServiceRecord(desired, template, vip, port)])
  }

  /** Virtual addresses lie in the service prefix and no two services share one. */
  ghost predicate ValidServices(services: ServiceMap, cidr: Cidr) {
    && (forall s | s in services :: Contains(cidr, services[s].vip))
    && (forall s, t | s in services && t in services && services[s].vip == services[t].vip :: s == t)
  }

  /** A new service is refused for lack of an address exactly when every address of the prefix is in use. */
  lemma RefusedExactlyWhenFull(services: ServiceMap, cidr: Cidr, name: string, desired: u32, template: Template, port: nat)
    requires cidr.len > 0 && name !in services
    ensures ApplyTo(services, cidr, name, desired, template, port) == Refused(VipPoolExhausted(name)) <==>
            forall a: u32 | Contains(cidr, a) :: exists s :: s in services && services[s].vip == a
  {
    ProbeVisitsBlockOnce(name, cidr);
    var r := FirstVip(name, cidr, Vips(services), 0);
    if r.None? {
      forall a: u32 | Contains(cidr, a) ensures exists s :: s in services && services[s].vip == a {
        var t :| 0 <= t < HostCount(cidr) && DeriveServiceVip(name, cidr, t) == a;
        assert a in Vips(services);
      }
    } else {
      assert Contains(cidr, r.value) && r.value !in Vips(services);
    }
  }

  /**
    * A known service is accepted exactly with its own template and port, a new one exactly while the prefix has a free
    * address; and the record is then what was asked for.
    */
  lemma AppliedIff(services: ServiceMap, cidr: Cidr, name: string, desired: u32, template: Template, port: nat)
    requires cidr.len > 0
    ensures var r := ApplyTo(services, cidr, name, desired, template, port);
            && (name in services ==> (r.Applied? <==> services[name].template == template && services[name].port == port))
            && (name !in services ==>
                  (r.Applied? <==> exists a: u32 :: Contains(cidr, a) && forall s | s in services :: services[s].vip != a))
            && (r.Applied? ==> name in r.services && r.services[name].desired == desired
                               && r.services[name].template == template && r.services[name].port == port)
  {
    if name !in services { RefusedExactlyWhenFull(services, cidr, name, desired, template, port); }
  }

  /** `after` is `before` with one service added or its desired count changed; nothing else moves. */
  ghost predicate Updated(before: ServiceMap, after: ServiceMap, name: string, desired: u32) {
    && after.Keys == before.Keys + {name}
    && after[name].desired == desired
    && (forall s | s in before && s != name :: after[s] == before[s])
    && (name in before ==> after[name] == before[name].(desired := desired))
  }

  lemma ApplyUpdates(services: ServiceMap, cidr: Cidr, name: string, desired: u32, template: Template, port: nat)
    requires cidr.len > 0
    ensures var r := ApplyTo(services, cidr, name, desired, template, port);
            r.Applied? ==> Updated(services, r.services, name, desired)
  {
  }

  /** Applying keeps every address distinct and in the prefix, and never moves an existing service's address. */
  lemma ApplyKeepsVips(services: ServiceMap, cidr: Cidr, name: string, desired: u32, template: Template, port: nat)
    requires cidr.len > 0 && ValidServices(services, cidr)
    ensures var r := ApplyTo(services, cidr, name, desired, template, port);
            r.Applied? ==> ValidServices(r.services, cidr) && Updated(services, r.services, name, desired)
  {
    var r := ApplyTo(services, cidr, name, desired, template, port);
    if r.Applied? && name !in services {
      InsertVip(services, cidr, name, r.services[name]);
    }
  }

  lemma InsertVip(services: ServiceMap, cidr: Cidr, name: string, r: ServiceRecord)
    requires ValidServices(services, cidr) && name !in services
    requires Contains(cidr, r.vip) && r.vip !in Vips(services)
    ensures ValidServices(services[name := r], cidr)
  {
    assert forall s | s in services :: services[s].vip in Vips(services);
  }

  // ---------- who owns a name ----------

  datatype Owner = Unmanaged | Service(name: string)

  predicate Owns(services: ServiceMap, s: string, jail: string) {
    s in services && ReplicaIndex(s, jail).Some?
  }

  ghost function OwnerOf(jail: string, placements: map<string, string>, services: ServiceMap): Option<Owner> {
    if jail !in placements then None
    else if exists s :: Owns(services, s, jail) then
      var s :| Owns(services, s, jail);
      Some(Service(s))
    else Some(Unmanaged)
  }

  lemma OwnerIs(jail: string, placements: map<string, string>, services: ServiceMap, s: string)
    requires jail in placements && Owns(services, s, jail)
    ensures OwnerOf(jail, placements, services) == Some(Service(s))
  {
    var o := OwnerOf(jail, placements, services).value.name;
    OneService(o, s, jail);
  }

  /** The scan over service names, in whatever order the hash map gives them, finds the same owner. */
  method FindOwner(jail: string, placements: map<string, string>, services: ServiceMap) returns (owner: Option<Owner>)
    ensures owner == OwnerOf(jail, placements, services)
  {
    if jail !in placements {
      return None;
    }
    var todo := services.Keys;
    while todo != {}
      invariant todo <= services.Keys
      invariant forall s | s in services && s !in todo :: ReplicaIndex(s, jail).None?
      decreases |todo|
    {
      var s :| s in todo;
      if ReplicaIndex(s, jail).Some? {
        OwnerIs(jail, placements, services, s);
        return Some(Service(s));
      }
      todo := todo - {s};
    }
    return Some(Unmanaged);
  }

  // ---------- which indices to add or remove ----------

  function AtLeast(s: set<nat>, from: nat): set<nat> {
    set i | i in s && i >= from
  }

  /** `(from..).filter(not present).take(count)` */
  function LowestMissing(present: set<nat>, from: nat, count: nat): (r: seq<nat>)
    ensures |r| == count
    ensures forall k | 0 <= k < |r| :: from <= r[k] < from + count + |AtLeast(present, from)| && r[k] !in present
    ensures forall j, k | 0 <= j < k < |r| :: r[j] < r[k]
    ensures forall i, k | from <= i && 0 <= k < |r| && i < r[k] && i !in present :: i in r
    decreases count, |AtLeast(present, from)|
  {
    if count == 0 then []
    else if from in present then
      assert AtLeast(present, from) == AtLeast(present, from + 1) + {from};
      LowestMissing(present, from + 1, count)
    else
      assert AtLeast(present, from) == AtLeast(present, from + 1);
      [from] + LowestMissing(present, from + 1, count - 1)
  }

  lemma {:induction false} Greatest(s: set<nat>) returns (m: nat)
    requires s != {}
    ensures m in s && forall i | i in s :: i <= m
    decreases |s|
  {
    var x :| x in s;
    var rest := s - {x};
    assert s == rest + {x};
    if rest == {} {
      m := x;
    } else {
      m := Greatest(rest);
      if x > m { m := x; }
    }
  }

  lemma MaxExists(s: set<nat>)
    requires s != {}
    ensures exists m :: m in s && forall i | i in s :: i <= m
  {
    var m := Greatest(s);
  }

  function Max(s: set<nat>): (m: nat)
    requires s != {}
    ensures m in s && forall i | i in s :: i <= m
  {
    MaxExists(s);
    var m :| m in s && forall i | i in s :: i <= m;
    m
  }

  /** `present.iter().rev().take(count)` */
  function Highest(present: set<nat>, count: nat): (r: seq<nat>)
    requires count <= |present|
    ensures |r| == count
    ensures forall k | 0 <= k < |r| :: r[k] in present
    ensures forall j, k | 0 <= j < k < |r| :: r[j] > r[k]
    ensures forall i, k | i in present && 0 <= k < |r| && i > r[k] :: i in r
  {
    if count == 0 then []
    else
      assert present != {};
      var m := Max(present);
      [m] + Highest(present - {m}, count - 1)
  }

  function DiffReplicas(desired: nat, present: set<nat>): (r: (seq<nat>, seq<nat>))
    ensures |r.0| == (if |present| < desired then desired - |present| else 0)
    ensures |r.1| == (if |present| > desired then |present| - desired else 0)
  {
    if |present| < desired then (LowestMissing(present, 0, desired - |present|), [])
    else if |present| > desired then ([], Highest(present, |present| - desired))
    else ([], [])
  }

  /** Every index to add is missing and below the desired count; every index to remove is present. */
  lemma DiffInRange(desired: nat, present: set<nat>)
    ensures var (add, remove) := DiffReplicas(desired, present);
            && (forall k | 0 <= k < |add| :: add[k] < desired && add[k] !in present)
            && (forall k | 0 <= k < |remove| :: remove[k] in present)
            && (forall j, k | 0 <= j < k < |add| :: add[j] < add[k])
            && (forall j, k | 0 <= j < k < |remove| :: remove[j] > remove[k])
  {
    assert AtLeast(present, 0) == present;
  }

  // ---------- which node to use ----------

  function Idle(nodes: seq<NodeResources>, busy: set<string>): (r: seq<NodeResources>)
    ensures forall n :: n in r <==> n in nodes && n.id !in busy
  {
    if nodes == [] then []
    else
      var rest := Idle(nodes[..|nodes| - 1], busy);
      var n := nodes[|nodes| - 1];
      assert nodes == nodes[..|nodes| - 1] + [n];
      if n.id in busy then rest else rest + [n]
  }

  function PickNodeForService(nodes: seq<NodeResources>, busy: set<string>): Option<string> {
    var idle := Idle(nodes, busy);
    if idle != [] then PickNode(idle) else PickNode(nodes)
  }

  /** The best of the nodes that are not busy; only when all are busy, the best of all. */
  ghost predicate BestIdle(nodes: seq<NodeResources>, busy: set<string>, b: NodeResources) {
    && b in nodes
    && (b.id in busy ==> forall n | n in nodes :: n.id in busy)
    && (forall n | n in nodes && (n.id !in busy || b.id in busy) :: NotBeaten(b, n))
  }

  /** A busy node is chosen only when every candidate is busy; none only when there is no candidate; otherwise the best. */
  lemma PickSpreads(nodes: seq<NodeResources>, busy: set<string>)
    ensures var r := PickNodeForService(nodes, busy);
            && (r.None? <==> nodes == [])
            && (r.Some? ==> exists b :: BestIdle(nodes, busy, b) && b.id == r.value)
  {
    var idle := Idle(nodes, busy);
    PickNodeIsGreatest(idle);
    PickNodeIsGreatest(nodes);
    if idle != [] {
      assert idle[0] in nodes;
      var b :| IsGreatest(idle, b) && PickNode(idle) == Some(b.id);
      assert BestIdle(nodes, busy, b);
    } else if nodes != [] {
      assert forall n | n in nodes && n.id !in busy :: n in idle;
      var b :| IsGreatest(nodes, b) && PickNode(nodes) == Some(b.id);
      assert BestIdle(nodes, busy, b);
    }
  }

  /** The table of services. */
  class ServiceTable {
    const cidr: Cidr
    var byName: ServiceMap

    ghost predicate Valid()
      reads this
    {
      cidr.len > 0 && ValidServices(byName, cidr)
    }

    constructor (serviceCidr: Cidr)
      requires serviceCidr.len > 0
      ensures Valid() && byName == map[] && cidr == serviceCidr
    {
      cidr, byName := serviceCidr, map[];
    }

    method Apply(name: string, desired: u32, template: Template, port: nat) returns (r: ApplyResult)
      requires Valid()
      modifies this
      ensures Valid()
      ensures r == ApplyTo(old(byName), cidr, name, desired, template, port)
      ensures byName == if r.Applied? then r.services else old(byName)
    {
      ApplyKeepsVips(byName, cidr, name, desired, template, port);
      if name in byName {
        var existing := byName[name];
        if existing.template != template {
          return Refused(TemplateChanged(name));
        }
        if existing.port != port {
          return Refused(PortChanged(name));
        }
        byName := byName[name := ServiceRecord(desired, template, existing.vip, port)];
        return Applied(byName);
      }
      var vip := FirstVip(name, cidr, Vips(byName), 0);
      if vip.None? {
        return Refused(VipPoolExhausted(name));
      }
      byName := byName[name := ServiceRecord(desired, template, vip.value, port)];
      r := Applied(byName);
    }

    method Remove(name: string)
      requires Valid()
      modifies this
      ensures Valid()
      ensures byName == old(byName) - {name}
    {
      byName := byName - {name};
    }
  }
}
