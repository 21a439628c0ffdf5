/** Routes to the other nodes' pod blocks: the diff against the reported peers and its execution. */
module Routes {
  import opened Text
  import opened Environment

  datatype Peer = Peer(id: string, addr: string, pod: string, alive: bool)

  /** Which peer each route was installed for, and the kernel's table from subnet to gateway. */
  datatype Table = Table(installed: map<string, string>, kernel: map<string, string>)

  predicate Wanted(self: string, p: Peer) { p.alive && p.id != self }

  /** What comes before the last colon of an address, or all of it if it has none. */
  ghost predicate IsHost(host: string, addr: string) {
    || (':' !in addr && host == addr)
    || exists i :: 0 <= i < |addr| && addr[i] == ':' && ':' !in addr[i + 1..] && host == addr[..i]
  }

  /** `addr.rsplit_once(':')`, keeping the host part. */
  function Gateway(addr: string): (host: string)
    ensures IsHost(host, addr)
  {
    HostPart(addr, |addr|)
  }

  function HostPart(addr: string, k: nat): (host: string)
    requires k <= |addr| && ':' !in addr[k..]
    ensures IsHost(host, addr)
  {
    if k == 0 then
      assert addr[0..] == addr;
      addr
    else if addr[k - 1] == ':' then
      assert addr[k - 1 + 1..] == addr[k..];
      addr[..k - 1]
    else
      assert addr[k - 1..] == [addr[k - 1]] + addr[k..];
      HostPart(addr, k - 1)
  }

  lemma LastColon(addr: string, i: nat, j: nat)
    requires i < |addr| && addr[i] == ':' && ':' !in addr[i + 1..]
    requires j < |addr| && addr[j] == ':' && ':' !in addr[j + 1..]
    ensures i == j
  {
  }

  /** So `host:port` leads to `host`, whatever colons the host holds. */
  lemma GatewayOfHostPort(host: string, port: string)
    requires ':' !in port
    ensures Gateway(host + ":" + port) == host
  {
    hide Gateway;
    var addr := host + ":" + port;
    assert addr[|host|] == ':' && addr[|host| + 1..] == port && addr[..|host|] == host;
    var i :| 0 <= i < |addr| && addr[i] == ':' && ':' !in addr[i + 1..] && Gateway(addr) == addr[..i];
    LastColon(addr, i, |host|);
  }

  // ---------- the diff ----------

  predicate NeedsRoute(self: string, p: Peer, installed: map<string, string>) {
    Wanted(self, p) && !(p.id in installed && installed[p.id] == p.pod)
  }

  function ToAdd(self: string, peers: seq<Peer>, installed: map<string, string>, k: nat): seq<(string, string)>
    requires k <= |peers|
  {
    if k == 0 then []
    else
      var rest := ToAdd(self, peers, installed, k - 1);
      if NeedsRoute(self, peers[k - 1], installed) then rest + [(peers[k - 1].pod, peers[k - 1].addr)] else rest
  }

  function WantedIds(self: string, peers: seq<Peer>): set<string> {
    set p | p in peers && Wanted(self, p) :: p.id
  }

  /** The subnets of routes whose peer is gone. */
  function Doomed(self: string, peers: seq<Peer>, installed: map<string, string>): set<string> {
    set id | id in installed && id !in WantedIds(self, peers) :: installed[id]
  }

  method DiffRoutes(self: string, peers: seq<Peer>, installed: map<string, string>)
    returns (add: seq<(string, string)>, remove: seq<string>)
    ensures add == ToAdd(self, peers, installed, |peers|)
    ensures forall c :: c in remove <==> c in Doomed(self, peers, installed)
  {
    add := [];
    for k := 0 to |peers|
      invariant add == ToAdd(self, peers, installed, k)
    {
      var peer := peers[k];
      if peer.id == self || !peer.alive { continue; }
      if !(peer.id in installed && installed[peer.id] == peer.pod) {
        add := add + [(peer.pod, peer.addr)];
      }
    }
    var alive := WantedIds(self, peers);
    remove := [];
    var todo := installed.Keys;
    while todo != {}
      invariant todo <= installed.Keys
      invariant forall c :: c in remove <==> exists id :: id in installed && id !in todo && id !in alive && installed[id] == c
      decreases |todo|
    {
      var id :| id in todo;
      todo := todo - {id};
      if id !in alive { remove := remove + [installed[id]]; }
    }
  }

  // ---------- carrying it out ----------

  function RemoveRoute(t: Table, subnet: string, ok: bool): Table {
    if !ok then t
    else Table(map id | id in t.installed && t.installed[id] != subnet :: t.installed[id], t.kernel - {subnet})
  }

  /** The first reported peer with this subnet is the one the route is booked for. */
  function AddRoute(t: Table, peers: seq<Peer>, route: (string, string), ok: bool): Table {
    if !ok then t
    else
      var kernel := t.kernel[route.0 := Gateway(route.1)];
      var k := FirstWith(peers, route.0, 0);
      Table(if k < |peers| then t.installed[peers[k].id := route.0] else t.installed, kernel)
  }

  function FirstWith(peers: seq<Peer>, pod: string, k: nat): (r: nat)
    requires k <= |peers|
    ensures k <= r <= |peers|
    ensures r < |peers| ==> peers[r].pod == pod
    ensures forall i | k <= i < r :: peers[i].pod != pod
    decreases |peers| - k
  {
    if k == |peers| || peers[k].pod == pod then k else FirstWith(peers, pod, k + 1)
  }

  function Removed(t: Table, remove: seq<string>, ok: nat -> bool, k: nat): Table
    requires k <= |remove|
  {
    if k == 0 then t else RemoveRoute(Removed(t, remove, ok, k - 1), remove[k - 1], ok(k - 1))
  }

  function Added(t: Table, peers: seq<Peer>, add: seq<(string, string)>, ok: nat -> bool, k: nat): Table
    requires k <= |add|
  {
    if k == 0 then t else AddRoute(Added(t, peers, add, ok, k - 1), peers, add[k - 1], ok(k - 1))
  }

  /** One call: removals first, then additions; `remove` lists the doomed subnets in the order they were met. */
  function Reconciled(t: Table, self: string, peers: seq<Peer>, remove: seq<string>, okR: nat -> bool, okA: nat -> bool): Table {
    var add := ToAdd(self, peers, t.installed, |peers|);
    Added(Removed(t, remove, okR, |remove|), peers, add, okA, |add|)
  }

  class RouteTable {
    var installed: map<string, string>
    var kernel: map<string, string>

    ghost function Value(): Table
      reads this
    {
      Table(installed, kernel)
    }

    constructor ()
      ensures Value() == Table(map[], map[])
    {
      installed, kernel := map[], map[];
    }

    method ReconcileRoutes(self: string, peers: seq<Peer>, okR: nat -> bool, okA: nat -> bool) returns (remove: seq<string>)
      modifies this
      ensures forall c :: c in remove <==> c in Doomed(self, peers, old(installed))
      ensures Value() == Reconciled(old(Value()), self, peers, remove, okR, okA)
    {
      var add;
      add, remove := DiffRoutes(self, peers, installed);
      for k := 0 to |remove|
        invariant Value() == Removed(old(Value()), remove, okR, k)
      {
        var subnet := remove[k];
        if okR(k) {
          kernel := kernel - {subnet};
          installed := map id | id in installed && installed[id] != subnet :: installed[id];
        }
      }
      ghost var t := Value();
      for k := 0 to |add|
        invariant Value() == Added(t, peers, add, okA, k)
      {
        var (subnet, addr) := add[k];
        if okA(k) {
          kernel := kernel[subnet := Gateway(addr)];
          var p := FirstWith(peers, subnet, 0);
          if p < |peers| { installed := installed[peers[p].id := subnet]; }
        }
      }
    }
  }

  // ---------- convergence ----------

  /** Reported peers have distinct ids and distinct subnets. */
  predicate DistinctPeers(peers: seq<Peer>) {
    forall i, j | 0 <= i < j < |peers| :: peers[i].id != peers[j].id && peers[i].pod != peers[j].pod
  }

  /** The kernel has exactly the subnets of the installed routes. */
  ghost predicate InStep(t: Table) {
    forall c :: c in t.kernel <==> exists id :: id in t.installed && t.installed[id] == c
  }

  /** Every wanted peer's route is installed, no other is, and the kernel agrees. */
  ghost predicate Converged(t: Table, self: string, peers: seq<Peer>) {
    && (forall p | p in peers && Wanted(self, p) :: p.id in t.installed && t.installed[p.id] == p.pod)
    && (forall id | id in t.installed :: id in WantedIds(self, peers))
    && InStep(t)
  }

  /** So a route is installed exactly for each reported peer that is alive and is not the node itself. */
  lemma InstalledExactly(t: Table, self: string, peers: seq<Peer>, id: string, subnet: string)
    requires DistinctPeers(peers) && Converged(t, self, peers)
    ensures id in t.installed && t.installed[id] == subnet <==>
            exists p :: p in peers && p.alive && p.id != self && p.id == id && p.pod == subnet
    ensures subnet in t.kernel <==> exists p :: p in peers && p.alive && p.id != self && p.pod == subnet
  {
    forall i | i in t.installed ensures exists p :: p in peers && p.alive && p.id != self && p.id == i && p.pod == t.installed[i] {
      assert i in WantedIds(self, peers);
      var p :| p in peers && Wanted(self, p) && p.id == i;
      assert t.installed[p.id] == p.pod;
    }
  }

  /** Peers keep the subnet they were installed with. */
  predicate FixedSubnets(t: Table, self: string, peers: seq<Peer>) {
    forall p | p in peers && Wanted(self, p) && p.id in t.installed :: t.installed[p.id] == p.pod
  }

  lemma {:induction false} RemovedAll(t: Table, remove: seq<string>, k: nat)
    requires k <= |remove|
    ensures var r := Removed(t, remove, Always, k);
            && (forall id :: id in r.installed <==> id in t.installed && t.installed[id] !in remove[..k])
            && (forall id | id in r.installed :: r.installed[id] == t.installed[id])
            && (forall c :: c in r.kernel <==> c in t.kernel && c !in remove[..k])
            && (forall c | c in r.kernel :: r.kernel[c] == t.kernel[c])
  {
    if k > 0 {
      RemovedAll(t, remove, k - 1);
      assert remove[..k] == remove[..k - 1] + [remove[k - 1]];
    }
  }

  /** With distinct subnets the route of a peer is booked for that very peer. */
  lemma FoundPeer(peers: seq<Peer>, i: nat)
    requires DistinctPeers(peers) && i < |peers|
    ensures FirstWith(peers, peers[i].pod, 0) == i
  {
  }

  /** Among the first `k` peers, one that needs a route has this id (this subnet). */
  predicate AddsId(self: string, peers: seq<Peer>, installed: map<string, string>, k: nat, id: string)
    requires k <= |peers|
  {
    exists i :: 0 <= i < k && NeedsRoute(self, peers[i], installed) && peers[i].id == id
  }

  predicate AddsPod(self: string, peers: seq<Peer>, installed: map<string, string>, k: nat, c: string)
    requires k <= |peers|
  {
    exists i :: 0 <= i < k && NeedsRoute(self, peers[i], installed) && peers[i].pod == c
  }

  /** The installed map with the routes of the first `k` peers that need one booked. */
  ghost predicate WithEntries(t: Table, r: Table, self: string, peers: seq<Peer>, installed: map<string, string>, k: nat)
    requires k <= |peers|
  {
    && (forall i | 0 <= i < k && NeedsRoute(self, peers[i], installed) ::
          peers[i].id in r.installed && r.installed[peers[i].id] == peers[i].pod)
    && (forall id | !AddsId(self, peers, installed, k, id) ::
          (id in r.installed <==> id in t.installed) && (id in r.installed ==> r.installed[id] == t.installed[id]))
  }

  /** The kernel's table with those routes added, each by way of its peer's host. */
  ghost predicate WithGateways(t: Table, r: Table, self: string, peers: seq<Peer>, installed: map<string, string>, k: nat)
    requires k <= |peers|
  {
    && (forall i | 0 <= i < k && NeedsRoute(self, peers[i], installed) ::
          peers[i].pod in r.kernel && r.kernel[peers[i].pod] == Gateway(peers[i].addr))
    && (forall c :: c in r.kernel <==> c in t.kernel || AddsPod(self, peers, installed, k, c))
    && (forall c | c in t.kernel && !AddsPod(self, peers, installed, k, c) :: r.kernel[c] == t.kernel[c])
  }

  /** `r` is `t` with the routes of the first `k` peers that need one added. */
  ghost predicate WithRoutes(t: Table, r: Table, self: string, peers: seq<Peer>, installed: map<string, string>, k: nat)
    requires k <= |peers|
  {
    WithEntries(t, r, self, peers, installed, k) && WithGateways(t, r, self, peers, installed, k)
  }

  lemma AddsSnoc(self: string, peers: seq<Peer>, installed: map<string, string>, k: nat, x: string)
    requires k < |peers|
    ensures AddsId(self, peers, installed, k + 1, x) <==>
            AddsId(self, peers, installed, k, x) || (NeedsRoute(self, peers[k], installed) && peers[k].id == x)
    ensures AddsPod(self, peers, installed, k + 1, x) <==>
            AddsPod(self, peers, installed, k, x) || (NeedsRoute(self, peers[k], installed) && peers[k].pod == x)
  {
    hide NeedsRoute;
    if AddsId(self, peers, installed, k, x) {
      var i :| 0 <= i < k && NeedsRoute(self, peers[i], installed) && peers[i].id == x;
      assert 0 <= i < k + 1 && NeedsRoute(self, peers[i], installed) && peers[i].id == x;
    }
    if AddsPod(self, peers, installed, k, x) {
      var i :| 0 <= i < k && NeedsRoute(self, peers[i], installed) && peers[i].pod == x;
      assert 0 <= i < k + 1 && NeedsRoute(self, peers[i], installed) && peers[i].pod == x;
    }
  }

  function WithOne(r: Table, self: string, peers: seq<Peer>, installed: map<string, string>, k: nat): Table
    requires k < |peers|
  {
    if NeedsRoute(self, peers[k], installed) then AddRoute(r, peers, (peers[k].pod, peers[k].addr), true) else r
  }

  lemma EntryStep(t: Table, r: Table, self: string, peers: seq<Peer>, installed: map<string, string>, k: nat)
    requires DistinctPeers(peers) && k < |peers| && WithEntries(t, r, self, peers, installed, k)
    ensures WithEntries(t, WithOne(r, self, peers, installed, k), self, peers, installed, k + 1)
  {
    hide NeedsRoute, AddsId, Gateway, FirstWith;
    FoundPeer(peers, k);
    var r' := WithOne(r, self, peers, installed, k);
    forall i | 0 <= i < k + 1 && NeedsRoute(self, peers[i], installed)
      ensures peers[i].id in r'.installed && r'.installed[peers[i].id] == peers[i].pod
    {
      assert i < k ==> peers[i].id != peers[k].id;
    }
    forall id | !AddsId(self, peers, installed, k + 1, id)
      ensures (id in r'.installed <==> id in t.installed) && (id in r'.installed ==> r'.installed[id] == t.installed[id])
    {
      AddsSnoc(self, peers, installed, k, id);
    }
  }

  lemma GatewayStep(t: Table, r: Table, self: string, peers: seq<Peer>, installed: map<string, string>, k: nat)
    requires DistinctPeers(peers) && k < |peers| && WithGateways(t, r, self, peers, installed, k)
    ensures WithGateways(t, WithOne(r, self, peers, installed, k), self, peers, installed, k + 1)
  {
    hide NeedsRoute, AddsPod, Gateway, FirstWith;
    var r' := WithOne(r, self, peers, installed, k);
    forall i | 0 <= i < k + 1 && NeedsRoute(self, peers[i], installed)
      ensures peers[i].pod in r'.kernel && r'.kernel[peers[i].pod] == Gateway(peers[i].addr)
    {
      assert i < k ==> peers[i].pod != peers[k].pod;
    }
    forall c
      ensures c in r'.kernel <==> c in t.kernel || AddsPod(self, peers, installed, k + 1, c)
      ensures c in t.kernel && !AddsPod(self, peers, installed, k + 1, c) ==> r'.kernel[c] == t.kernel[c]
    {
      AddsSnoc(self, peers, installed, k, c);
    }
  }

  lemma {:induction false} AddedAll(t: Table, installed: map<string, string>, self: string, peers: seq<Peer>, k: nat)
    requires DistinctPeers(peers) && k <= |peers|
    ensures var add := ToAdd(self, peers, installed, k);
            WithRoutes(t, Added(t, peers, add, Always, |add|), self, peers, installed, k)
  {
    hide NeedsRoute, WithEntries, WithGateways, AddRoute, DistinctPeers;
    if k > 0 {
      AddedAll(t, installed, self, peers, k - 1);
      var add, add1 := ToAdd(self, peers, installed, k), ToAdd(self, peers, installed, k - 1);
      AddedPrefix(t, peers, add1, add, Always, |add1|);
      EntryStep(t, Added(t, peers, add1, Always, |add1|), self, peers, installed, k - 1);
      GatewayStep(t, Added(t, peers, add1, Always, |add1|), self, peers, installed, k - 1);
    } else {
      NoRoutes(t, self, peers, installed);
    }
  }

  lemma NoRoutes(t: Table, self: string, peers: seq<Peer>, installed: map<string, string>)
    ensures WithRoutes(t, t, self, peers, installed, 0)
  {
  }

  lemma {:induction false} AddedPrefix(t: Table, peers: seq<Peer>, a: seq<(string, string)>, b: seq<(string, string)>, ok: nat -> bool, k: nat)
    requires a <= b && k <= |a|
    ensures Added(t, peers, a, ok, k) == Added(t, peers, b, ok, k)
  {
    if k > 0 { AddedPrefix(t, peers, a, b, ok, k - 1); }
  }

  ghost predicate IsRemoveList(t: Table, self: string, peers: seq<Peer>, remove: seq<string>) {
    forall c :: c in remove <==> c in Doomed(self, peers, t.installed)
  }

  /** What a call in which every command succeeds leaves behind. */
  ghost predicate CleanResult(t: Table, r: Table, self: string, peers: seq<Peer>) {
    var doomed := Doomed(self, peers, t.installed);
    && (forall p | p in peers && NeedsRoute(self, p, t.installed) ::
          && p.id in r.installed && r.installed[p.id] == p.pod
          && p.pod in r.kernel && r.kernel[p.pod] == Gateway(p.addr))
    && (forall id | !AddsId(self, peers, t.installed, |peers|, id) ::
          && (id in r.installed <==> id in t.installed && t.installed[id] !in doomed)
          && (id in r.installed ==> r.installed[id] == t.installed[id]))
    && (forall c :: c in r.kernel <==> (c in t.kernel && c !in doomed) || AddsPod(self, peers, t.installed, |peers|, c))
    && (forall c | c in r.kernel && !AddsPod(self, peers, t.installed, |peers|, c) :: r.kernel[c] == t.kernel[c])
  }

  lemma CleanCall(t: Table, self: string, peers: seq<Peer>, remove: seq<string>)
    requires DistinctPeers(peers) && IsRemoveList(t, self, peers, remove)
    ensures CleanResult(t, Reconciled(t, self, peers, remove, Always, Always), self, peers)
  {
    hide Doomed, NeedsRoute, ToAdd, Added, Removed, AddsId, AddsPod, DistinctPeers;
    RemovedAll(t, remove, |remove|);
    assert remove[..|remove|] == remove;
    AddedAll(Removed(t, remove, Always, |remove|), t.installed, self, peers, |peers|);
  }

  /** Why one clean call can fall short: a live route shares its subnet with a doomed one, or a moved peer's old subnet lingers. */
  ghost predicate Clear(t: Table, self: string, peers: seq<Peer>) {
    forall p | p in peers && Wanted(self, p) && p.id in t.installed ::
      var c := t.installed[p.id];
      if c == p.pod then c !in Doomed(self, peers, t.installed)
      else c in Doomed(self, peers, t.installed) || exists q :: q in peers && Wanted(self, q) && q.pod == c
  }

  /** One call in which every command succeeds converges if and only if the table is clear. */
  lemma ConvergesIff(t: Table, self: string, peers: seq<Peer>, remove: seq<string>)
    requires DistinctPeers(peers) && InStep(t) && IsRemoveList(t, self, peers, remove)
    ensures Converged(Reconciled(t, self, peers, remove, Always, Always), self, peers) <==> Clear(t, self, peers)
  {
    hide Reconciled;
    CleanCall(t, self, peers, remove);
    var r := Reconciled(t, self, peers, remove, Always, Always);
    if Clear(t, self, peers) { ClearConverges(t, r, self, peers); }
    if Converged(r, self, peers) { ConvergedWasClear(t, r, self, peers); }
  }

  lemma SamePeer(peers: seq<Peer>, p: Peer, q: Peer)
    requires DistinctPeers(peers) && p in peers && q in peers && (p.id == q.id || p.pod == q.pod)
    ensures p == q
  {
  }

  lemma InstalledAfter(t: Table, r: Table, self: string, peers: seq<Peer>, p: Peer)
    requires DistinctPeers(peers) && CleanResult(t, r, self, peers) && p in peers && Wanted(self, p)
    ensures (p.id in r.installed && r.installed[p.id] == p.pod) <==>
            (NeedsRoute(self, p, t.installed) || p.pod !in Doomed(self, peers, t.installed))
  {
    hide Doomed;
    if !NeedsRoute(self, p, t.installed) {
      forall i | 0 <= i < |peers| && NeedsRoute(self, peers[i], t.installed) ensures peers[i].id != p.id {
        if peers[i].id == p.id { SamePeer(peers, p, peers[i]); }
      }
      assert !AddsId(self, peers, t.installed, |peers|, p.id);
    }
  }

  lemma OnlyWanted(t: Table, r: Table, self: string, peers: seq<Peer>, id: string)
    requires CleanResult(t, r, self, peers) && id in r.installed
    ensures id in WantedIds(self, peers)
  {
    if AddsId(self, peers, t.installed, |peers|, id) {
      var i :| 0 <= i < |peers| && NeedsRoute(self, peers[i], t.installed) && peers[i].id == id;
      assert peers[i].id in WantedIds(self, peers);
    } else {
      assert id in t.installed && t.installed[id] !in Doomed(self, peers, t.installed);
    }
  }

  lemma ClearConverges(t: Table, r: Table, self: string, peers: seq<Peer>)
    requires DistinctPeers(peers) && InStep(t) && CleanResult(t, r, self, peers) && Clear(t, self, peers)
    ensures Converged(r, self, peers)
  {
    hide CleanResult, Doomed, WantedIds, DistinctPeers;
    forall p | p in peers && Wanted(self, p) ensures p.id in r.installed && r.installed[p.id] == p.pod {
      InstalledAfter(t, r, self, peers, p);
    }
    forall id | id in r.installed ensures id in WantedIds(self, peers) {
      OnlyWanted(t, r, self, peers, id);
    }
    forall c ensures c in r.kernel <==> exists id :: id in r.installed && r.installed[id] == c {
      KernelAfterClear(t, r, self, peers, c);
    }
  }

  lemma WantedPeer(self: string, peers: seq<Peer>, id: string) returns (p: Peer)
    requires id in WantedIds(self, peers)
    ensures p in peers && Wanted(self, p) && p.id == id
  {
    p :| p in peers && Wanted(self, p) && p.id == id;
  }

  lemma KernelAfterClear(t: Table, r: Table, self: string, peers: seq<Peer>, c: string)
    requires DistinctPeers(peers) && InStep(t) && CleanResult(t, r, self, peers) && Clear(t, self, peers)
    requires forall p | p in peers && Wanted(self, p) :: p.id in r.installed && r.installed[p.id] == p.pod
    requires forall id | id in r.installed :: id in WantedIds(self, peers)
    ensures c in r.kernel <==> exists id :: id in r.installed && r.installed[id] == c
  {
    var doomed := Doomed(self, peers, t.installed);
    if c in r.kernel {
      if AddsPod(self, peers, t.installed, |peers|, c) {
        var i :| 0 <= i < |peers| && NeedsRoute(self, peers[i], t.installed) && peers[i].pod == c;
        assert peers[i] in peers && r.installed[peers[i].id] == c;
      } else {
        var id :| id in t.installed && t.installed[id] == c;
        assert id in WantedIds(self, peers);
        var p := WantedPeer(self, peers, id);
        if p.pod == c {
          assert r.installed[p.id] == c;
        } else {
          var q :| q in peers && Wanted(self, q) && q.pod == c;
          assert r.installed[q.id] == c;
        }
      }
    }
    if id :| id in r.installed && r.installed[id] == c {
      var p := WantedPeer(self, peers, id);
      if !NeedsRoute(self, p, t.installed) {
        assert t.installed[p.id] == c;
        assert c in t.kernel && c !in doomed;
      }
    }
  }

  lemma ConvergedWasClear(t: Table, r: Table, self: string, peers: seq<Peer>)
    requires DistinctPeers(peers) && InStep(t) && CleanResult(t, r, self, peers) && Converged(r, self, peers)
    ensures Clear(t, self, peers)
  {
    hide WantedIds, Doomed;
    forall p | p in peers && Wanted(self, p) && p.id in t.installed
      ensures var c := t.installed[p.id];
              if c == p.pod then c !in Doomed(self, peers, t.installed)
              else c in Doomed(self, peers, t.installed) || exists q :: q in peers && Wanted(self, q) && q.pod == c
    {
      var c := t.installed[p.id];
      InstalledAfter(t, r, self, peers, p);
      if c != p.pod && c !in Doomed(self, peers, t.installed) {
        assert c in t.kernel && c in r.kernel;
        var id :| id in r.installed && r.installed[id] == c;
        var q := WantedPeer(self, peers, id);
      }
    }
  }

  /** When subnets are fixed per id, whatever earlier failures left behind, two clean calls converge. */
  lemma TwoCallsConverge(t: Table, self: string, peers: seq<Peer>, remove: seq<string>, remove': seq<string>)
    requires DistinctPeers(peers) && InStep(t) && FixedSubnets(t, self, peers)
    requires IsRemoveList(t, self, peers, remove)
    requires IsRemoveList(Reconciled(t, self, peers, remove, Always, Always), self, peers, remove')
    ensures Converged(Reconciled(Reconciled(t, self, peers, remove, Always, Always), self, peers, remove', Always, Always), self, peers)
  {
    hide Reconciled;
    CleanCall(t, self, peers, remove);
    var r := Reconciled(t, self, peers, remove, Always, Always);
    FixedKeepsStep(t, r, self, peers);
    assert Clear(r, self, peers) by { TidyIsClear(r, self, peers); }
    ConvergesIff(r, self, peers, remove');
  }

  lemma TidyIsClear(r: Table, self: string, peers: seq<Peer>)
    requires FixedSubnets(r, self, peers) && forall id | id in r.installed :: id in WantedIds(self, peers)
    ensures Clear(r, self, peers)
  {
  }

  lemma FixedKeepsStep(t: Table, r: Table, self: string, peers: seq<Peer>)
    requires DistinctPeers(peers) && InStep(t) && FixedSubnets(t, self, peers) && CleanResult(t, r, self, peers)
    ensures InStep(r) && FixedSubnets(r, self, peers)
    ensures forall id | id in r.installed :: id in WantedIds(self, peers)
  {
    hide CleanResult, DistinctPeers, Doomed;
    forall id | id in r.installed ensures id in WantedIds(self, peers) { OnlyWanted(t, r, self, peers, id); }
    forall p | p in peers && Wanted(self, p) && p.id in r.installed ensures r.installed[p.id] == p.pod {
      FixedEntry(t, r, self, peers, p);
    }
    forall c ensures c in r.kernel <==> exists id :: id in r.installed && r.installed[id] == c {
      FixedKernel(t, r, self, peers, c);
    }
  }

  lemma FixedEntry(t: Table, r: Table, self: string, peers: seq<Peer>, p: Peer)
    requires DistinctPeers(peers) && FixedSubnets(t, self, peers) && CleanResult(t, r, self, peers)
    requires p in peers && Wanted(self, p) && p.id in r.installed
    ensures r.installed[p.id] == p.pod
  {
    hide Doomed;
    if !NeedsRoute(self, p, t.installed) {
      forall i | 0 <= i < |peers| && NeedsRoute(self, peers[i], t.installed) ensures peers[i].id != p.id {
        if peers[i].id == p.id { SamePeer(peers, p, peers[i]); }
      }
      assert !AddsId(self, peers, t.installed, |peers|, p.id);
    }
  }

  lemma FixedKernel(t: Table, r: Table, self: string, peers: seq<Peer>, c: string)
    requires DistinctPeers(peers) && InStep(t) && FixedSubnets(t, self, peers) && CleanResult(t, r, self, peers)
    requires forall id | id in r.installed :: id in WantedIds(self, peers)
    requires forall p | p in peers && Wanted(self, p) && p.id in r.installed :: r.installed[p.id] == p.pod
    ensures c in r.kernel <==> exists id :: id in r.installed && r.installed[id] == c
  {
    var doomed := Doomed(self, peers, t.installed);
    if c in r.kernel {
      if AddsPod(self, peers, t.installed, |peers|, c) {
        var i :| 0 <= i < |peers| && NeedsRoute(self, peers[i], t.installed) && peers[i].pod == c;
        assert peers[i] in peers && r.installed[peers[i].id] == c;
      } else {
        var id :| id in t.installed && t.installed[id] == c;
        var p := WantedPeer(self, peers, id);
        assert p.pod == c && !NeedsRoute(self, p, t.installed);
        InstalledAfter(t, r, self, peers, p);
      }
    }
    if id :| id in r.installed && r.installed[id] == c {
      var p := WantedPeer(self, peers, id);
      if !NeedsRoute(self, p, t.installed) { InstalledAfter(t, r, self, peers, p); }
    }
  }

  /** A converged table needs no command: the next diff is empty. */
  lemma {:induction false} QuietWhenConverged(t: Table, self: string, peers: seq<Peer>, k: nat)
    requires Converged(t, self, peers) && k <= |peers|
    ensures ToAdd(self, peers, t.installed, k) == [] && Doomed(self, peers, t.installed) == {}
  {
    if k > 0 {
      QuietWhenConverged(t, self, peers, k - 1);
      assert peers[k - 1] in peers;
    }
  }

  // ---------- runs with failing commands ----------

  lemma RemoveKeepsStep(t: Table, subnet: string, ok: bool)
    requires InStep(t)
    ensures InStep(RemoveRoute(t, subnet, ok))
  {
    var r := RemoveRoute(t, subnet, ok);
    forall c ensures c in r.kernel <==> exists id :: id in r.installed && r.installed[id] == c {
      if c in r.kernel {
        var id :| id in t.installed && t.installed[id] == c;
        assert id in r.installed && r.installed[id] == c;
      }
    }
  }

  lemma {:induction false} RemovedKeepsStep(t: Table, remove: seq<string>, ok: nat -> bool, k: nat)
    requires InStep(t) && k <= |remove|
    ensures InStep(Removed(t, remove, ok, k))
    ensures forall id | id in Removed(t, remove, ok, k).installed :: id in t.installed
  {
    hide InStep;
    if k > 0 {
      RemovedKeepsStep(t, remove, ok, k - 1);
      RemoveKeepsStep(Removed(t, remove, ok, k - 1), remove[k - 1], ok(k - 1));
    }
  }

  lemma AddKeepsStep(t: Table, peers: seq<Peer>, i: nat, ok: bool)
    requires InStep(t) && DistinctPeers(peers) && i < |peers| && peers[i].id !in t.installed
    ensures InStep(AddRoute(t, peers, (peers[i].pod, peers[i].addr), ok))
    ensures forall id | id in AddRoute(t, peers, (peers[i].pod, peers[i].addr), ok).installed :: id in t.installed || id == peers[i].id
  {
    hide Gateway;
    FoundPeer(peers, i);
    var r := AddRoute(t, peers, (peers[i].pod, peers[i].addr), ok);
    forall c ensures c in r.kernel <==> exists id :: id in r.installed && r.installed[id] == c {
      if c in t.kernel {
        var id :| id in t.installed && t.installed[id] == c;
        assert id in r.installed && r.installed[id] == c;
      }
      if ok { assert r.installed[peers[i].id] == peers[i].pod; }
    }
  }

  lemma {:induction false} AddedKeepsStep(t: Table, installed: map<string, string>, self: string, peers: seq<Peer>, ok: nat -> bool, k: nat)
    requires InStep(t) && DistinctPeers(peers) && k <= |peers|
    requires forall i | 0 <= i < |peers| && NeedsRoute(self, peers[i], installed) :: peers[i].id !in t.installed
    ensures var add := ToAdd(self, peers, installed, k);
            var r := Added(t, peers, add, ok, |add|);
            InStep(r) && forall i | k <= i < |peers| && NeedsRoute(self, peers[i], installed) :: peers[i].id !in r.installed
  {
    hide NeedsRoute, InStep, AddRoute;
    if k > 0 {
      AddedKeepsStep(t, installed, self, peers, ok, k - 1);
      var add, add1 := ToAdd(self, peers, installed, k), ToAdd(self, peers, installed, k - 1);
      AddedPrefix(t, peers, add1, add, ok, |add1|);
      if NeedsRoute(self, peers[k - 1], installed) {
        AddKeepsStep(Added(t, peers, add1, ok, |add1|), peers, k - 1, ok(|add1|));
      }
    }
  }

  /** With subnets fixed per id, the kernel and the installed map stay in step whichever commands fail. */
  lemma AnyCallKeepsStep(t: Table, self: string, peers: seq<Peer>, remove: seq<string>, okR: nat -> bool, okA: nat -> bool)
    requires InStep(t) && DistinctPeers(peers) && FixedSubnets(t, self, peers)
    ensures InStep(Reconciled(t, self, peers, remove, okR, okA))
  {
    hide InStep, Removed, Added, ToAdd;
    RemovedKeepsStep(t, remove, okR, |remove|);
    AddedKeepsStep(Removed(t, remove, okR, |remove|), t.installed, self, peers, okA, |peers|);
  }

  /** One heartbeat's call: the reported peers, the order of the removals and the outcome of every command. */
  datatype Call = Call(peers: seq<Peer>, remove: seq<string>, okR: nat -> bool, okA: nat -> bool)

  function AfterCalls(self: string, calls: seq<Call>, k: nat): Table
    requires k <= |calls|
  {
    if k == 0 then Table(map[], map[])
    else
      var c := calls[k - 1];
      Reconciled(AfterCalls(self, calls, k - 1), self, c.peers, c.remove, c.okR, c.okA)
  }

  /** Over the whole run, every reported peer has distinct company and the subnet that goes with its id. */
  ghost predicate Reports(calls: seq<Call>, subnet: string -> string) {
    && (forall i | 0 <= i < |calls| :: DistinctPeers(calls[i].peers))
    && (forall i, p | 0 <= i < |calls| && p in calls[i].peers :: p.pod == subnet(p.id))
  }

  /** Every route is booked under the id whose subnet it leads to. */
  ghost predicate Booked(t: Table, subnet: string -> string) {
    forall id | id in t.installed :: t.installed[id] == subnet(id)
  }

  /** Some report so far gave this gateway's address for an alive peer with this subnet, other than the node itself. */
  ghost predicate Reported(self: string, calls: seq<Call>, k: nat, subnet: string, gateway: string)
    requires k <= |calls|
  {
    exists i, p :: 0 <= i < k && p in calls[i].peers && p.alive && p.id != self && p.pod == subnet && IsHost(gateway, p.addr)
  }

  /** Every kernel route leads where some report said its subnet's peer was. */
  ghost predicate WellLed(t: Table, self: string, calls: seq<Call>, k: nat)
    requires k <= |calls|
  {
    forall c | c in t.kernel :: Reported(self, calls, k, c, t.kernel[c])
  }

  lemma {:induction false} RemovedLed(t: Table, remove: seq<string>, ok: nat -> bool, j: nat, self: string, calls: seq<Call>, k: nat)
    requires k <= |calls| && WellLed(t, self, calls, k) && j <= |remove|
    ensures WellLed(Removed(t, remove, ok, j), self, calls, k)
  {
    hide Reported;
    if j > 0 { RemovedLed(t, remove, ok, j - 1, self, calls, k); }
  }

  lemma {:induction false} ToAddFrom(self: string, peers: seq<Peer>, installed: map<string, string>, k: nat)
    requires k <= |peers|
    ensures forall a | a in ToAdd(self, peers, installed, k) ::
              exists p :: p in peers && p.alive && p.id != self && p.pod == a.0 && p.addr == a.1
  {
    if k > 0 {
      ToAddFrom(self, peers, installed, k - 1);
      assert peers[k - 1] in peers;
    }
  }

  lemma {:induction false} AddedLed(t: Table, add: seq<(string, string)>, ok: nat -> bool, j: nat, self: string, calls: seq<Call>, k: nat)
    requires k < |calls| && WellLed(t, self, calls, k + 1) && j <= |add|
    requires forall a | a in add :: exists p :: p in calls[k].peers && p.alive && p.id != self && p.pod == a.0 && p.addr == a.1
    ensures WellLed(Added(t, calls[k].peers, add, ok, j), self, calls, k + 1)
  {
    hide Gateway, Reported, FirstWith, IsHost;
    if j > 0 {
      AddedLed(t, add, ok, j - 1, self, calls, k);
      var a := add[j - 1];
      assert a in add;
      var p :| p in calls[k].peers && p.alive && p.id != self && p.pod == a.0 && p.addr == a.1;
      NowReported(self, calls, k, p, Gateway(a.1));
    }
  }

  lemma NowReported(self: string, calls: seq<Call>, k: nat, p: Peer, gateway: string)
    requires k < |calls| && p in calls[k].peers && p.alive && p.id != self && IsHost(gateway, p.addr)
    ensures Reported(self, calls, k + 1, p.pod, gateway)
  {
  }

  lemma LedStays(t: Table, self: string, calls: seq<Call>, k: nat)
    requires k < |calls| && WellLed(t, self, calls, k)
    ensures WellLed(t, self, calls, k + 1)
  {
    hide IsHost;
    forall c | c in t.kernel ensures Reported(self, calls, k + 1, c, t.kernel[c]) {
      assert Reported(self, calls, k, c, t.kernel[c]);
      var i, p :| 0 <= i < k && p in calls[i].peers && p.alive && p.id != self && p.pod == c && IsHost(t.kernel[c], p.addr);
      assert 0 <= i < k + 1 && p in calls[i].peers;
    }
  }

  /** After any history of reports and failing commands, every kernel route leads to the host some report gave for its peer. */
  lemma {:induction false} RunIsWellLed(self: string, calls: seq<Call>, k: nat)
    requires k <= |calls|
    ensures WellLed(AfterCalls(self, calls, k), self, calls, k)
  {
    hide Removed, Added, ToAdd, WellLed;
    if k > 0 {
      RunIsWellLed(self, calls, k - 1);
      var t, c := AfterCalls(self, calls, k - 1), calls[k - 1];
      LedStays(t, self, calls, k - 1);
      RemovedLed(t, c.remove, c.okR, |c.remove|, self, calls, k);
      var add := ToAdd(self, c.peers, t.installed, |c.peers|);
      ToAddFrom(self, c.peers, t.installed, |c.peers|);
      AddedLed(Removed(t, c.remove, c.okR, |c.remove|), add, c.okA, |add|, self, calls, k - 1);
    } else {
      assert WellLed(Table(map[], map[]), self, calls, 0) by { NothingLed(self, calls); }
    }
  }

  lemma NothingLed(self: string, calls: seq<Call>)
    ensures WellLed(Table(map[], map[]), self, calls, 0)
  {
  }

  lemma {:induction false} RemovedBooked(t: Table, remove: seq<string>, ok: nat -> bool, k: nat, subnet: string -> string)
    requires Booked(t, subnet) && k <= |remove|
    ensures Booked(Removed(t, remove, ok, k), subnet)
  {
    if k > 0 { RemovedBooked(t, remove, ok, k - 1, subnet); }
  }

  lemma {:induction false} AddedBooked(t: Table, peers: seq<Peer>, add: seq<(string, string)>, ok: nat -> bool, k: nat, subnet: string -> string)
    requires Booked(t, subnet) && k <= |add| && forall p | p in peers :: p.pod == subnet(p.id)
    ensures Booked(Added(t, peers, add, ok, k), subnet)
  {
    hide Gateway;
    if k > 0 { AddedBooked(t, peers, add, ok, k - 1, subnet); }
  }

  /** After any history of reports and failing commands, kernel and installed map agree and routes are booked right. */
  lemma {:induction false} RunStaysInStep(self: string, calls: seq<Call>, subnet: string -> string, k: nat)
    requires k <= |calls| && Reports(calls, subnet)
    ensures InStep(AfterCalls(self, calls, k)) && Booked(AfterCalls(self, calls, k), subnet)
  {
    hide Removed, Added, ToAdd, DistinctPeers, InStep;
    if k > 0 {
      RunStaysInStep(self, calls, subnet, k - 1);
      var t, c := AfterCalls(self, calls, k - 1), calls[k - 1];
      AnyCallKeepsStep(t, self, c.peers, c.remove, c.okR, c.okA);
      RemovedBooked(t, c.remove, c.okR, |c.remove|, subnet);
      var add := ToAdd(self, c.peers, t.installed, |c.peers|);
      AddedBooked(Removed(t, c.remove, c.okR, |c.remove|), c.peers, add, c.okA, |add|, subnet);
    } else {
      NothingInstalled(subnet);
    }
  }

  lemma NothingInstalled(subnet: string -> string)
    ensures InStep(Table(map[], map[])) && Booked(Table(map[], map[]), subnet)
  {
  }

  /** So two clean calls in a row install exactly the reported peers' routes, and a third would issue nothing. */
  lemma TwoCleanCallsEndAnyRun(self: string, calls: seq<Call>, subnet: string -> string, k: nat,
                               peers: seq<Peer>, remove: seq<string>, remove': seq<string>)
    requires k + 2 == |calls| && Reports(calls, subnet)
    requires calls[k] == Call(peers, remove, Always, Always) && IsRemoveList(AfterCalls(self, calls, k), self, peers, remove)
    requires calls[k + 1] == Call(peers, remove', Always, Always) && IsRemoveList(AfterCalls(self, calls, k + 1), self, peers, remove')
    ensures var t := AfterCalls(self, calls, k + 2);
            && Converged(t, self, peers) && WellLed(t, self, calls, k + 2)
            && ToAdd(self, peers, t.installed, |peers|) == [] && Doomed(self, peers, t.installed) == {}
  {
    hide Reconciled, Converged, InStep, IsRemoveList, DistinctPeers, ToAdd, Doomed, WellLed;
    RunStaysInStep(self, calls, subnet, k);
    RunIsWellLed(self, calls, k + 2);
    var t := AfterCalls(self, calls, k);
    assert calls[k].peers == peers;
    assert FixedSubnets(t, self, peers);
    assert AfterCalls(self, calls, k + 1) == Reconciled(t, self, peers, remove, Always, Always);
    TwoCallsConverge(t, self, peers, remove, remove');
    QuietWhenConverged(AfterCalls(self, calls, k + 2), self, peers, |peers|);
  }

  /**
    * One clean call is not always enough: when a failed removal left a gone peer's route behind and its subnet has
    * passed to a new peer, the next clean call drops both entries.
    */
  lemma OneCallCanFallShort(self: string, gone: string, heir: Peer, gateway: string)
    requires gone != heir.id && heir.alive && heir.id != self
    ensures var t := Table(map[gone := heir.pod, heir.id := heir.pod], map[heir.pod := gateway]);
            var r := Reconciled(t, self, [heir], [heir.pod], Always, Always);
            && InStep(t) && FixedSubnets(t, self, [heir]) && IsRemoveList(t, self, [heir], [heir.pod])
            && r == Table(map[], map[]) && !Converged(r, self, [heir])
  {
    var t := Table(map[gone := heir.pod, heir.id := heir.pod], map[heir.pod := gateway]);
    assert t.installed[gone] == heir.pod;
    assert heir in [heir];
    assert WantedIds(self, [heir]) == {heir.id};
    assert Doomed(self, [heir], t.installed) == {heir.pod};
    assert ToAdd(self, [heir], t.installed, 1) == [];
    assert Removed(t, [heir.pod], Always, 1) == RemoveRoute(t, heir.pod, true) == Table(map[], map[]);
  }
}
