/** The replication stream's header: two length-prefixed strings and an optional third. */
module Header {
  import opened Text

  type byte = x: int | 0 <= x < 256

  predicate Continuation(b: byte) { 0x80 <= b <= 0xBF }

  /** Well-formed UTF-8 (section 4 of RFC 3629). */
  predicate ValidUtf8(s: seq<byte>)
    decreases |s|
  {
    if s == [] then true
    else if s[0] < 0x80 then ValidUtf8(s[1..])
    else if 0xC2 <= s[0] <= 0xDF then |s| >= 2 && Continuation(s[1]) && ValidUtf8(s[2..])
    else if 0xE0 <= s[0] <= 0xEF then
      && |s| >= 3 && Continuation(s[1]) && Continuation(s[2])
      && (s[0] == 0xE0 ==> s[1] >= 0xA0) && (s[0] == 0xED ==> s[1] <= 0x9F)
      && ValidUtf8(s[3..])
    else if 0xF0 <= s[0] <= 0xF4 then
      && |s| >= 4 && Continuation(s[1]) && Continuation(s[2]) && Continuation(s[3])
      && (s[0] == 0xF0 ==> s[1] >= 0x90) && (s[0] == 0xF4 ==> s[1] <= 0x8F)
      && ValidUtf8(s[4..])
    else false
  }

  /** A Rust string is its UTF-8 bytes. */
  type Str = s: seq<byte> | ValidUtf8(s) witness []

  datatype Header = Header(replica: Str, snapshot: Str, base: Option<Str>)

  datatype IoError = UnexpectedEof | InvalidData

  datatype Read<+T> = Got(value: T, rest: seq<byte>) | Failed(error: IoError)

  // ---------- the format ----------

  /** Four bytes that spell `m` on the wire, most significant first. */
  predicate Spells(b: seq<byte>, m: nat) {
    |b| == 4 && m == b[0] as int * 0x100_0000 + b[1] as int * 0x1_0000 + b[2] as int * 0x100 + b[3] as int
  }

  /** `u32::to_be_bytes` */
  function FourBytes(m: nat): (b: seq<byte>)
    requires m < TWO32
    ensures |b| == 4 && Spells(b, m)
  {
    assert m == m / 256 * 256 + m % 256;
    assert m / 256 == m / 256 / 256 * 256 + m / 256 % 256;
    assert m / 256 / 256 == m / 256 / 256 / 256 * 256 + m / 256 / 256 % 256;
    [m / 256 / 256 / 256, m / 256 / 256 % 256, m / 256 % 256, m % 256]
  }

  /** `(n as u32).to_be_bytes()` */
  function BigEndian(n: nat): (b: seq<byte>)
    ensures |b| == 4
  {
    FourBytes(n % TWO32)
  }

  function FromBigEndian(b: seq<byte>): (n: nat)
    requires |b| == 4
    ensures n < TWO32
  {
    ((b[0] as int * 256 + b[1] as int) * 256 + b[2] as int) * 256 + b[3] as int
  }

  lemma BigEndianTruncates(n: nat)
    ensures FromBigEndian(BigEndian(n)) == n % TWO32
  {
    var m := n % TWO32;
    assert m == m / 256 * 256 + m % 256;
    assert m / 256 == m / 256 / 256 * 256 + m / 256 % 256;
  }

  lemma FourBytesOnto(b: seq<byte>)
    requires |b| == 4
    ensures FourBytes(FromBigEndian(b)) == b
  {
    var top := b[0] as int;
    var n2 := top * 256 + b[1] as int;
    var n1 := n2 * 256 + b[2] as int;
    LowByte(top, b[1]);
    LowByte(n2, b[2]);
    LowByte(n1, b[3]);
  }

  lemma BigEndianOnto(b: seq<byte>)
    requires |b| == 4
    ensures BigEndian(FromBigEndian(b)) == b
  {
    hide FromBigEndian, FourBytes;
    FourBytesOnto(b);
  }

  lemma LowByte(q: nat, d: byte)
    ensures (q * 256 + d as int) / 256 == q && (q * 256 + d as int) % 256 == d
  {
  }

  function EncodeStr(s: Str): seq<byte> {
    BigEndian(|s|) + s
  }

  function DecodeStr(b: seq<byte>): Read<Str> {
    if |b| < 4 then Failed(UnexpectedEof)
    else
      var len := FromBigEndian(b[..4]);
      if |b| - 4 < len then Failed(UnexpectedEof)
      else if !ValidUtf8(b[4..4 + len]) then Failed(InvalidData)
      else Got(b[4..4 + len], b[4 + len..])
  }

  function EncodeBase(base: Option<Str>): seq<byte> {
    match base
    case None => [0]
    case Some(s) => [1] + EncodeStr(s)
  }

  function DecodeBase(b: seq<byte>): Read<Option<Str>> {
    if b == [] then Failed(UnexpectedEof)
    else if b[0] == 0 then Got(None, b[1..])
    else
      match DecodeStr(b[1..])
      case Failed(e) => Failed(e)
      case Got(s, rest) => Got(Some(s), rest)
  }

  function Encode(h: Header): seq<byte> {
    EncodeStr(h.replica) + (EncodeStr(h.snapshot) + EncodeBase(h.base))
  }

  function Decode(b: seq<byte>): Read<Header> {
    match DecodeStr(b)
    case Failed(e) => Failed(e)
    case Got(replica, b1) =>
      match DecodeStr(b1)
      case Failed(e) => Failed(e)
      case Got(snapshot, b2) =>
        match DecodeBase(b2)
        case Failed(e) => Failed(e)
        case Got(base, rest) => Got(Header(replica, snapshot, base), rest)
  }

  // ---------- round trips ----------

  predicate Short(s: Str) { |s| < TWO32 }

  lemma StrRoundTrip(s: Str, rest: seq<byte>)
    ensures DecodeStr(EncodeStr(s) + rest) == Got(s, rest) <==> Short(s)
    ensures DecodeStr(EncodeStr(s) + rest).Got? ==> |DecodeStr(EncodeStr(s) + rest).value| < TWO32
  {
    hide ValidUtf8, BigEndian, FromBigEndian;
    BigEndianTruncates(|s|);
    var b := EncodeStr(s) + rest;
    assert b[..4] == BigEndian(|s|);
    if Short(s) {
      assert b[4..4 + |s|] == s && b[4 + |s|..] == rest;
    }
  }

  lemma BaseRoundTrip(base: Option<Str>, rest: seq<byte>)
    ensures DecodeBase(EncodeBase(base) + rest) == Got(base, rest) <==> (base.Some? ==> Short(base.value))
    ensures var r := DecodeBase(EncodeBase(base) + rest); r.Got? && r.value.Some? ==> Short(r.value.value)
  {
    hide EncodeStr, DecodeStr;
    var b := EncodeBase(base) + rest;
    match base
    case None => assert b[1..] == rest;
    case Some(s) =>
      assert b[1..] == EncodeStr(s) + rest;
      StrRoundTrip(s, rest);
  }

  predicate Representable(h: Header) {
    Short(h.replica) && Short(h.snapshot) && (h.base.Some? ==> Short(h.base.value))
  }

  /** A written header followed by any payload reads back as itself, leaving the payload, exactly when its strings fit a u32. */
  lemma HeaderRoundTripIff(h: Header, payload: seq<byte>)
    ensures Decode(Encode(h) + payload) == Got(h, payload) <==> Representable(h)
  {
    hide EncodeStr, DecodeStr, EncodeBase, DecodeBase;
    var tail := EncodeBase(h.base) + payload;
    var middle := EncodeStr(h.snapshot) + tail;
    assert Encode(h) + payload == EncodeStr(h.replica) + middle by { Regroup(h, payload); }
    StrRoundTrip(h.replica, middle);
    StrRoundTrip(h.snapshot, tail);
    BaseRoundTrip(h.base, payload);
    if Decode(Encode(h) + payload) == Got(h, payload) {
      DecodedIsShort(Encode(h) + payload);
    }
  }

  lemma Regroup(h: Header, payload: seq<byte>)
    ensures Encode(h) + payload == EncodeStr(h.replica) + (EncodeStr(h.snapshot) + (EncodeBase(h.base) + payload))
  {
  }

  lemma DecodedIsShort(b: seq<byte>)
    ensures Decode(b).Got? ==> Representable(Decode(b).value)
  {
    hide ValidUtf8, FromBigEndian;
  }

  /** Whatever reads as a string is that string's encoding followed by the rest. */
  lemma StrIsSelfDelimiting(b: seq<byte>)
    ensures DecodeStr(b).Got? ==> b == EncodeStr(DecodeStr(b).value) + DecodeStr(b).rest
  {
    hide ValidUtf8, BigEndian, FromBigEndian;
    if DecodeStr(b).Got? {
      BigEndianOnto(b[..4]);
      BigEndianTruncates(|DecodeStr(b).value|);
    }
  }

  /**
    * The bytes on the wire: the replica's length and name, the snapshot's length and id, a byte that is 0 or 1, and after a
    * 1 the base's length and id; nothing else.
    */
  lemma WireLayout(h: Header)
    requires Representable(h)
    ensures var e, a := Encode(h), |h.replica|;
            var b := 8 + a + |h.snapshot|;
            && |e| == b + 1 + (if h.base.Some? then 4 + |h.base.value| else 0)
            && Spells(e[..4], a) && e[4..4 + a] == h.replica
            && Spells(e[4 + a..8 + a], |h.snapshot|) && e[8 + a..b] == h.snapshot
            && e[b] == (if h.base.Some? then 1 else 0)
            && (h.base.Some? ==> Spells(e[b + 1..b + 5], |h.base.value|) && e[b + 5..] == h.base.value)
  {
    hide ValidUtf8, Spells, BigEndian;
    var e, a, z := Encode(h), |h.replica|, EncodeBase(h.base);
    var b := 8 + a + |h.snapshot|;
    SpelledLength(h.replica);
    SpelledLength(h.snapshot);
    Cuts(BigEndian(a), h.replica, BigEndian(|h.snapshot|), h.snapshot, z);
    assert e[b] == e[b..][0];
    if h.base.Some? {
      SpelledLength(h.base.value);
      assert z[1..5] == BigEndian(|h.base.value|) && z[5..] == h.base.value;
      assert e[b + 1..b + 5] == e[b..][1..5] && e[b + 5..] == e[b..][5..];
    }
  }

  lemma Cuts(p: seq<byte>, x: seq<byte>, q: seq<byte>, y: seq<byte>, z: seq<byte>)
    requires |p| == 4 && |q| == 4
    ensures var e, b := (p + x) + ((q + y) + z), 8 + |x| + |y|;
            && |e| == b + |z| && e[..4] == p && e[4..4 + |x|] == x && e[4 + |x|..8 + |x|] == q && e[8 + |x|..b] == y && e[b..] == z
  {
  }

  lemma SpelledLength(s: Str)
    requires Short(s)
    ensures Spells(BigEndian(|s|), |s|)
  {
  }

  /** A string cut short reads as an unexpected end; one that has arrived whole reads as itself, whatever is cut after it. */
  lemma StrCutShort(s: Str, rest: seq<byte>, n: nat)
    requires Short(s) && n <= |EncodeStr(s) + rest|
    ensures var b := (EncodeStr(s) + rest)[..n];
            if n < |EncodeStr(s)| then DecodeStr(b) == Failed(UnexpectedEof)
            else DecodeStr(b) == Got(s, rest[..n - |EncodeStr(s)|])
  {
    hide ValidUtf8, BigEndian, FromBigEndian;
    var b := (EncodeStr(s) + rest)[..n];
    BigEndianTruncates(|s|);
    if n >= |EncodeStr(s)| {
      StrRoundTrip(s, rest[..n - |EncodeStr(s)|]);
      assert b == EncodeStr(s) + rest[..n - |EncodeStr(s)|];
    } else if n >= 4 {
      assert b[..4] == BigEndian(|s|);
    }
  }

  /** A header that breaks off anywhere reads as an unexpected end, never as another header. */
  lemma HeaderCutShort(h: Header, n: nat)
    requires Representable(h) && n < |Encode(h)|
    ensures Decode(Encode(h)[..n]) == Failed(UnexpectedEof)
  {
    hide EncodeStr, DecodeStr, ValidUtf8;
    var tail := EncodeStr(h.snapshot) + EncodeBase(h.base);
    StrCutShort(h.replica, tail, n);
    if n >= |EncodeStr(h.replica)| {
      var m := n - |EncodeStr(h.replica)|;
      StrCutShort(h.snapshot, EncodeBase(h.base), m);
      if m >= |EncodeStr(h.snapshot)| {
        var j := m - |EncodeStr(h.snapshot)|;
        var rest := EncodeBase(h.base)[..j];
        if j > 0 {
          var s := h.base.value;
          assert rest[1..] == (EncodeStr(s) + [])[..j - 1];
          StrCutShort(s, [], j - 1);
        }
      }
    }
  }

  /** A whole string that is not UTF-8 is reported as such. */
  lemma NotUtf8(x: seq<byte>, rest: seq<byte>)
    requires |x| < TWO32 && !ValidUtf8(x)
    ensures DecodeStr(BigEndian(|x|) + x + rest) == Failed(InvalidData)
  {
    hide ValidUtf8, BigEndian, FromBigEndian;
    BigEndianTruncates(|x|);
    var b := BigEndian(|x|) + x + rest;
    assert b[..4] == BigEndian(|x|) && b[4..4 + |x|] == x;
  }

  /** The position of the byte that says whether a base follows. */
  function FlagAt(h: Header): nat {
    |EncodeStr(h.replica)| + |EncodeStr(h.snapshot)|
  }

  /** Reading is injective up to the flag byte: the bytes read are the header's encoding exactly when that byte is 0 or 1. */
  lemma ReadIsEncodingIff(b: seq<byte>)
    requires Decode(b).Got?
    ensures var Got(h, rest) := Decode(b);
            FlagAt(h) < |b| && (b == Encode(h) + rest <==> b[FlagAt(h)] <= 1)
  {
    hide EncodeStr, DecodeStr;
    var Got(h, rest) := Decode(b);
    var b1 := DecodeStr(b).rest;
    var b2 := DecodeStr(b1).rest;
    StrIsSelfDelimiting(b);
    StrIsSelfDelimiting(b1);
    var head := EncodeStr(h.replica) + EncodeStr(h.snapshot);
    assert b == head + b2;
    assert b[FlagAt(h)] == b2[0];
    if h.base.Some? { StrIsSelfDelimiting(b2[1..]); }
    assert b2 == [b2[0]] + b2[1..];
    assert Encode(h) + rest == head + (EncodeBase(h.base) + rest);
    if b == Encode(h) + rest {
      assert b[FlagAt(h)] == EncodeBase(h.base)[0];
    } else {
      assert b2 != EncodeBase(h.base) + rest;
    }
  }

  // ---------- reading and writing a stream ----------

  class Stream {
    var data: seq<byte>

    constructor (bytes: seq<byte>)
      ensures data == bytes
    {
      data := bytes;
    }

    method WriteAll(bytes: seq<byte>)
      modifies this
      ensures data == old(data) + bytes
    {
      data := data + bytes;
    }

    method ReadExact(n: nat) returns (r: Option<seq<byte>>)
      modifies this
      ensures |old(data)| < n ==> r.None?
      ensures |old(data)| >= n ==> r == Some(old(data)[..n]) && data == old(data)[n..]
    {
      if |data| < n { data := []; return None; }
      r := Some(data[..n]);
      data := data[n..];
    }

    method WriteLenPrefixed(s: Str)
      modifies this
      ensures data == old(data) + EncodeStr(s)
    {
      WriteAll(BigEndian(|s|));
      WriteAll(s);
    }

    method ReadLenPrefixed() returns (r: Read<Str>)
      modifies this
      ensures r == DecodeStr(old(data))
      ensures r.Got? ==> data == r.rest
    {
      hide ValidUtf8;
      var prefix := ReadExact(4);
      if prefix.None? { return Failed(UnexpectedEof); }
      var body := ReadExact(FromBigEndian(prefix.value));
      if body.None? { return Failed(UnexpectedEof); }
      assert old(data)[4..][..|body.value|] == old(data)[4..4 + |body.value|];
      assert old(data)[4..][|body.value|..] == old(data)[4 + |body.value|..];
      if !ValidUtf8(body.value) { return Failed(InvalidData); }
      r := Got(body.value, data);
    }

    /** Appends exactly the header's encoding. */
    method WriteHeader(replica: Str, snapshot: Str, base: Option<Str>)
      modifies this
      ensures data == old(data) + Encode(Header(replica, snapshot, base))
    {
      hide EncodeStr;
      WriteLenPrefixed(replica);
      WriteLenPrefixed(snapshot);
      WriteBase(base);
      Associative(old(data), EncodeStr(replica), EncodeStr(snapshot), EncodeBase(base));
    }

    method WriteBase(base: Option<Str>)
      modifies this
      ensures data == old(data) + EncodeBase(base)
    {
      hide EncodeStr;
      match base
      case None => WriteAll([0]);
      case Some(s) =>
        WriteAll([1]);
        WriteLenPrefixed(s);
        assert (old(data) + [1]) + EncodeStr(s) == old(data) + ([1] + EncodeStr(s));
    }

    static lemma Associative(a: seq<byte>, b: seq<byte>, c: seq<byte>, d: seq<byte>)
      ensures ((a + b) + c) + d == a + (b + (c + d))
    {
    }

    /** Consumes exactly the header; the payload that follows stays unread. */
    method ReadHeader() returns (r: Read<Header>)
      modifies this
      ensures r == Decode(old(data))
      ensures r.Got? ==> data == r.rest
    {
      hide DecodeStr;
      var replica := ReadLenPrefixed();
      if replica.Failed? { return Failed(replica.error); }
      var snapshot := ReadLenPrefixed();
      if snapshot.Failed? { return Failed(snapshot.error); }
      var flag := ReadExact(1);
      if flag.None? { return Failed(UnexpectedEof); }
      if flag.value[0] == 0 {
        return Got(Header(replica.value, snapshot.value, None), data);
      }
      var base := ReadLenPrefixed();
      if base.Failed? { return Failed(base.error); }
      r := Got(Header(replica.value, snapshot.value, Some(base.value)), data);
    }
  }
}
