/** Address derivation: pod blocks per node and virtual addresses per service (RFC 4632 prefixes). */
module Subnet {
  import opened Text

  type u32 = x: int | 0 <= x < 0x1_0000_0000

  function Pow2(n: nat): (p: nat)
    ensures p > 0
  {
    if n == 0 then 1 else 2 * Pow2(n - 1)
  }

  lemma {:induction false} Pow2Sum(a: nat, b: nat)
    ensures Pow2(a + b) == Pow2(a) * Pow2(b)
    decreases b
  {
    if b > 0 { Pow2Sum(a, b - 1); }
  }

  lemma Pow2Of32()
    ensures Pow2(32) == TWO32 && Pow2(8) == 256 && Pow2(24) == 0x100_0000
  {
    assert Pow2(8) == 256;
    Pow2Sum(8, 8);
    Pow2Sum(16, 8);
    Pow2Sum(16, 16);
  }

  datatype Prefix = Prefix(addr: u32, len: nat)

  /** `Ipv4Net`: an address with a prefix length; host bits may be set. */
  type Cidr = c: Prefix | c.len <= 32 witness Prefix(0, 0)

  function HostCount(c: Cidr): (n: nat)
    ensures n > 0
  {
    Pow2(32 - c.len)
  }

  /** The largest multiple of `h` not above `a`. */
  function Floor(a: nat, h: nat): nat
    requires h > 0
  {
    MulMono(0, a / h, h);
    a / h * h
  }

  function Network(c: Cidr): nat {
    Floor(c.addr, HostCount(c))
  }

  predicate Contains(c: Cidr, a: int) {
    Network(c) <= a < Network(c) + HostCount(c)
  }

  /** A prefix block is aligned to its size and never runs past the 32-bit address space. */
  lemma BlockInRange(c: Cidr)
    ensures Network(c) % HostCount(c) == 0
    ensures Network(c) + HostCount(c) <= TWO32
    ensures HostCount(c) * Pow2(c.len) == TWO32
  {
    Pow2Sum(32 - c.len, c.len);
    Pow2Of32();
    FloorBlock(c.addr, HostCount(c), Pow2(c.len));
    MulMod(c.addr / HostCount(c), HostCount(c));
  }

  lemma FloorBlock(a: nat, h: nat, k: nat)
    requires h > 0 && a < h * k
    ensures Floor(a, h) + h <= h * k
  {
    var q := a / h;
    assert a == q * h + a % h;
    if q >= k { MulMono(k, q, h); }
    MulMono(q + 1, k, h);
  }

  lemma {:induction false} MulMod(q: nat, h: nat)
    requires h > 0
    ensures (q * h) % h == 0
  {
    if q > 0 {
      MulMod(q - 1, h);
      ModAdd((q - 1) * h, h);
      assert q * h == (q - 1) * h + h;
    }
  }

  lemma ModAdd(x: nat, h: nat)
    requires h > 0
    ensures (x + h) % h == x % h
  {
    var q, r := x / h, x % h;
    assert x + h == (q + 1) * h + r;
    ModUnique(x + h, q + 1, r, h);
  }

  /** Quotient and remainder are determined by the division equation. */
  lemma ModUnique(x: int, q: int, r: int, h: int)
    requires h > 0 && x == q * h + r && 0 <= r < h
    ensures x % h == r && x / h == q
  {
    var q', r' := x / h, x % h;
    assert x == q' * h + r';
    assert (q - q') * h == r' - r;
    assert (q' - q) * h == r - r';
    if q > q' { MulMono(1, q - q', h); }
    if q < q' { MulMono(1, q' - q, h); }
  }

  lemma MulMono(a: int, b: int, h: int)
    requires a <= b && h >= 0
    ensures a * h <= b * h
  {
  }

  // ---------- FNV-1a ----------

  const FNV_OFFSET_BASIS: bv32 := 0x811c_9dc5
  const FNV_PRIME: bv32 := 0x0100_0193

  function Mix(hash: bv32, byte: bv8): bv32 {
    (hash ^ byte as bv32) * FNV_PRIME
  }

  function Fnv(bytes: seq<bv8>): bv32 {
    if bytes == [] then FNV_OFFSET_BASIS
    else Mix(Fnv(bytes[..|bytes| - 1]), bytes[|bytes| - 1])
  }

  method Fnv1a(bytes: seq<bv8>) returns (hash: bv32)
    ensures hash == Fnv(bytes)
  {
    hash := FNV_OFFSET_BASIS;
    for i := 0 to |bytes|
      invariant hash == Fnv(bytes[..i])
    {
      FnvSnoc(bytes, i);
      hash := Mix(hash, bytes[i]);
    }
    assert bytes[..|bytes|] == bytes;
  }

  lemma FnvSnoc(bytes: seq<bv8>, i: nat)
    requires i < |bytes|
    ensures Fnv(bytes[..i + 1]) == Mix(Fnv(bytes[..i]), bytes[i])
  {
    assert bytes[..i + 1][..i] == bytes[..i];
  }

  /** `str::as_bytes` */
  function Utf8(s: string): seq<bv8> {
    if s == "" then [] else Utf8(s[..|s| - 1]) + Utf8Char(s[|s| - 1] as nat)
  }

  function Utf8Char(c: nat): seq<bv8>
    requires c < 0x11_0000
  {
    if c < 0x80 then [c as bv8]
    else if c < 0x800 then [(0xC0 + c / 64) as bv8, (0x80 + c % 64) as bv8]
    else if c < 0x1_0000 then [(0xE0 + c / 4096) as bv8, (0x80 + c / 64 % 64) as bv8, (0x80 + c % 64) as bv8]
    else [(0xF0 + c / 0x4_0000) as bv8, (0x80 + c / 4096 % 64) as bv8, (0x80 + c / 64 % 64) as bv8, (0x80 + c % 64) as bv8]
  }

  function NameHash(name: string): u32 {
    Fnv(Utf8(name)) as u32
  }

  // ---------- service virtual addresses ----------

  /** `hash.wrapping_add(attempt) % host_count`, in 32-bit arithmetic. */
  function ProbeOffset(hash: nat, attempt: nat, hosts: nat): (r: nat)
    requires hosts > 0
    ensures r < hosts
  {
    (hash + attempt) % TWO32 % hosts
  }

  function DeriveServiceVip(service: string, cidr: Cidr, attempt: nat): (vip: u32)
    requires cidr.len > 0
    ensures Contains(cidr, vip)
  {
    BlockInRange(cidr);
    Network(cidr) + ProbeOffset(NameHash(service), attempt, HostCount(cidr))
  }

  /** Reducing modulo 2^32 first does not change the remainder by a power-of-two host count. */
  lemma WrapIsHarmless(x: nat, hosts: nat, blocks: nat)
    requires hosts > 0 && blocks > 0 && hosts * blocks == TWO32
    ensures x % TWO32 % hosts == x % hosts
  {
    var q, r := x / TWO32, x % TWO32;
    var q2, r2 := r / hosts, r % hosts;
    assert x == q * TWO32 + r;
    assert r == q2 * hosts + r2;
    assert q * (hosts * blocks) == (q * blocks) * hosts;
    assert x == (q * blocks + q2) * hosts + r2;
    ModUnique(x, q * blocks + q2, r2, hosts);
  }

  lemma ProbeInjective(hash: nat, t: nat, u: nat, hosts: nat, blocks: nat)
    requires hosts * blocks == TWO32 && blocks > 0
    requires t < u < hosts
    ensures ProbeOffset(hash, t, hosts) != ProbeOffset(hash, u, hosts)
  {
    WrapIsHarmless(hash + t, hosts, blocks);
    WrapIsHarmless(hash + u, hosts, blocks);
    var r := (hash + t) % hosts;
    var q := (hash + t) / hosts;
    assert hash + t == q * hosts + r;
    var r' := r + (u - t);
    if r' < hosts {
      ModUnique(hash + u, q, r', hosts);
    } else {
      assert hash + u == (q + 1) * hosts + (r' - hosts);
      ModUnique(hash + u, q + 1, r' - hosts, hosts);
    }
  }

  /** The attempt at which the probe sequence reaches a given offset. */
  lemma ProbeReaches(hash: nat, offset: nat, hosts: nat, blocks: nat) returns (t: nat)
    requires hosts * blocks == TWO32 && blocks > 0
    requires offset < hosts
    ensures t < hosts && ProbeOffset(hash, t, hosts) == offset
  {
    var r := hash % hosts;
    var q := hash / hosts;
    assert hash == q * hosts + r;
    if r <= offset {
      t := offset - r;
      ModUnique(hash + t, q, offset, hosts);
    } else {
      t := offset + hosts - r;
      assert hash + t == (q + 1) * hosts + offset;
      ModUnique(hash + t, q + 1, offset, hosts);
    }
    WrapIsHarmless(hash + t, hosts, blocks);
  }

  /** The probes start at the service's hash and go round the block one by one, `u32` wrap-around or not. */
  lemma ProbesGoRound(service: string, cidr: Cidr, t: nat)
    requires cidr.len > 0
    ensures DeriveServiceVip(service, cidr, t) == Network(cidr) + (NameHash(service) + t) % HostCount(cidr)
  {
    hide NameHash;
    BlockInRange(cidr);
    WrapIsHarmless(NameHash(service) + t, HostCount(cidr), Pow2(cidr.len));
  }

  /** The probe sequence of a service visits every address of its block, and no address twice. */
  lemma ProbeVisitsBlockOnce(service: string, cidr: Cidr)
    requires cidr.len > 0
    ensures forall a | Contains(cidr, a) ::
              exists t :: 0 <= t < HostCount(cidr) && DeriveServiceVip(service, cidr, t) == a
    ensures forall t, u | 0 <= t < u < HostCount(cidr) ::
              DeriveServiceVip(service, cidr, t) != DeriveServiceVip(service, cidr, u)
  {
    BlockInRange(cidr);
    var h, n, b := NameHash(service), HostCount(cidr), Pow2(cidr.len);
    forall a | Contains(cidr, a)
      ensures exists t :: 0 <= t < n && DeriveServiceVip(service, cidr, t) == a
    {
      var t := ProbeReaches(h, a - Network(cidr), n, b);
      assert DeriveServiceVip(service, cidr, t) == a;
    }
    forall t, u | 0 <= t < u < n
      ensures DeriveServiceVip(service, cidr, t) != DeriveServiceVip(service, cidr, u)
    {
      ProbeInjective(h, t, u, n, b);
    }
  }

  // ---------- pod blocks ----------

  const POD_PREFIX_LEN: nat := 24

  /** The /24 block a node id hashes to inside the cluster prefix. */
  function DerivePodCidr(node: string, cluster: Cidr): (r: Cidr)
    requires cluster.len <= POD_PREFIX_LEN
    ensures r.len == POD_PREFIX_LEN && Network(r) == r.addr
    ensures Network(cluster) <= r.addr && r.addr + 256 <= Network(cluster) + HostCount(cluster)
  {
    var blocks := Pow2(POD_PREFIX_LEN - cluster.len);
    var index := NameHash(node) % blocks;
    PodBlockFits(cluster, index);
    Prefix(Network(cluster) + index * 256, POD_PREFIX_LEN)
  }

  lemma PodBlockFits(cluster: Cidr, index: nat)
    requires cluster.len <= POD_PREFIX_LEN
    requires index < Pow2(POD_PREFIX_LEN - cluster.len)
    ensures var a := Network(cluster) + index * 256;
            && a + 256 <= Network(cluster) + HostCount(cluster) <= TWO32
            && a % 256 == 0
            && Pow2(8) == 256
  {
    Pow2Sum(POD_PREFIX_LEN - cluster.len, 8);
    Pow2Of32();
    BlockInRange(cluster);
    var blocks := Pow2(POD_PREFIX_LEN - cluster.len);
    MulMono(index + 1, blocks, 256);
    Aligned(cluster.addr / HostCount(cluster), blocks, index);
  }

  lemma Aligned(q: nat, blocks: nat, index: nat)
    ensures (q * (blocks * 256) + index * 256) % 256 == 0
  {
    assert q * (blocks * 256) == (q * blocks) * 256;
    MulMod(q * blocks + index, 256);
  }

  /** Two node ids derive the same block exactly when their hashes agree modulo the number of blocks. */
  lemma SameBlockIff(a: string, b: string, cluster: Cidr)
    requires cluster.len <= POD_PREFIX_LEN
    ensures DerivePodCidr(a, cluster) == DerivePodCidr(b, cluster) <==>
            NameHash(a) % Pow2(POD_PREFIX_LEN - cluster.len) == NameHash(b) % Pow2(POD_PREFIX_LEN - cluster.len)
  {
    hide NameHash, Network;
  }

  /** Two distinct /24 blocks share no address. */
  lemma PodBlocksDisjoint(c: Cidr, d: Cidr, a: int)
    requires c.len == d.len == POD_PREFIX_LEN && Network(c) == c.addr && Network(d) == d.addr
    requires Contains(c, a) && Contains(d, a)
    ensures c == d
  {
    Pow2Of32();
    BlockInRange(c);
    BlockInRange(d);
  }
}
