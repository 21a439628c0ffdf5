/** Strings, their byte order, decimal numerals and replica names. */
module Text {

  datatype Option<+T> = None | Some(value: T)

  const TWO32: nat := 0x1_0000_0000

  /** Rust's `str` order: lexicographic on code points. */
  predicate Less(a: string, b: string)
    decreases |a|
  {
    if b == "" then false
    else if a == "" then true
    else a[0] < b[0] || (a[0] == b[0] && Less(a[1..], b[1..]))
  }

  lemma {:induction false} LessTotal(a: string, b: string)
    ensures a == b || Less(a, b) || Less(b, a)
    ensures Less(a, b) ==> !Less(b, a) && a != b
    decreases |a|
  {
    if a != "" && b != "" {
      LessTotal(a[1..], b[1..]);
      assert a == [a[0]] + a[1..] && b == [b[0]] + b[1..];
    }
  }

  lemma {:induction false} LessTransitive(a: string, b: string, c: string)
    requires Less(a, b) && Less(b, c)
    ensures Less(a, c)
    decreases |a|
  {
    if a != "" && a[0] == b[0] == c[0] {
      LessTransitive(a[1..], b[1..], c[1..]);
    }
  }

  // ---------- sorted enumeration of a finite key set ----------

  predicate Sorted(s: seq<string>) {
    forall i, j | 0 <= i < j < |s| :: Less(s[i], s[j])
  }

  ghost predicate Enumerates(s: seq<string>, keys: set<string>) {
    Sorted(s) && forall x :: x in s <==> x in keys
  }

  /** Inserts a new key at its place in a sorted list. */
  function Insert(s: seq<string>, x: string): (r: seq<string>)
    requires Sorted(s) && x !in s
    ensures Sorted(r) && r != []
    ensures forall y :: y in r <==> y == x || y in s
    ensures s != [] ==> r[0] == x || r[0] == s[0]
  {
    if s == [] then [x]
    else if Less(x, s[0]) then
      InsertFirst(s, x);
      [x] + s
    else
      LessTotal(x, s[0]);
      assert s == [s[0]] + s[1..];
      var t := Insert(s[1..], x);
      InsertFirst(t, s[0]);
      [s[0]] + t
  }

  lemma InsertFirst(s: seq<string>, x: string)
    requires Sorted(s)
    requires s != [] ==> Less(x, s[0])
    ensures Sorted([x] + s)
  {
    forall k | 0 < k < |s| ensures Less(x, s[k]) {
      LessTransitive(x, s[0], s[k]);
    }
  }

  /** Hash-map iteration (any order) followed by a sort on the key. */
  method SortKeys(keys: set<string>) returns (r: seq<string>)
    ensures Enumerates(r, keys)
  {
    r := [];
    var todo := keys;
    while todo != {}
      invariant Sorted(r) && todo <= keys
      invariant forall x :: x in r <==> x in keys && x !in todo
      decreases |todo|
    {
      var x :| x in todo;
      r := Insert(r, x);
      todo := todo - {x};
    }
  }

  /** The sorted enumeration does not depend on the order the keys were met in. */
  lemma {:induction false} EnumerationUnique(a: seq<string>, b: seq<string>, keys: set<string>)
    requires Enumerates(a, keys) && Enumerates(b, keys)
    ensures a == b
    decreases |a|
  {
    EmptyEnumeration(a, keys);
    EmptyEnumeration(b, keys);
    if a != [] {
      assert b[0] in a && a[0] in b;
      var i :| 0 <= i < |a| && a[i] == b[0];
      var j :| 0 <= j < |b| && b[j] == a[0];
      LessTotal(a[0], b[0]);
      assert a[0] == b[0];
      var rest := keys - {a[0]};
      TailEnumerates(a, keys);
      TailEnumerates(b, keys);
      EnumerationUnique(a[1..], b[1..], rest);
      assert a == [a[0]] + a[1..] && b == [b[0]] + b[1..];
    }
  }

  lemma EmptyEnumeration(a: seq<string>, keys: set<string>)
    requires Enumerates(a, keys)
    ensures a == [] <==> keys == {}
  {
    if a != [] { assert a[0] in a; }
    if keys != {} { var x :| x in keys; assert x in a; }
  }

  lemma TailEnumerates(a: seq<string>, keys: set<string>)
    requires Enumerates(a, keys) && a != []
    ensures Enumerates(a[1..], keys - {a[0]})
  {
    forall x ensures x in a[1..] <==> x in keys - {a[0]} {
      if x in a[1..] {
        var i :| 0 <= i < |a[1..]| && a[1..][i] == x;
        assert Less(a[0], a[i + 1]);
        LessTotal(a[0], x);
        assert x in a;
      }
      if x in keys && x != a[0] {
        var i :| 0 <= i < |a| && a[i] == x;
        assert a[1..][i - 1] == x;
      }
    }
  }

  /** The one sorted enumeration of a key set. */
  ghost function SortedKeys(keys: set<string>): (r: seq<string>)
    ensures Enumerates(r, keys)
  {
    EnumerationExists(keys);
    var r :| Enumerates(r, keys);
    r
  }

  lemma {:induction false} EnumerationExists(keys: set<string>)
    ensures exists r :: Enumerates(r, keys)
    decreases |keys|
  {
    if keys == {} {
      assert Enumerates([], keys);
    } else {
      var x :| x in keys;
      EnumerationExists(keys - {x});
      var s :| Enumerates(s, keys - {x});
      assert Enumerates(Insert(s, x), keys);
    }
  }

  // ---------- decimal numerals ----------

  predicate IsDigit(c: char) { '0' <= c <= '9' }

  function Digit(d: nat): (c: char)
    requires d < 10
    ensures IsDigit(c) && DigitValue(c) == d
  {
    '0' + d as char
  }

  function DigitValue(c: char): nat
    requires IsDigit(c)
  {
    (c - '0') as nat
  }

  /** `n.to_string()` */
  function Decimal(n: nat): (s: string)
    ensures s != "" && forall k | 0 <= k < |s| :: IsDigit(s[k])
  {
    if n < 10 then [Digit(n)] else Decimal(n / 10) + [Digit(n % 10)]
  }

  function Value(s: string): nat
    requires forall k | 0 <= k < |s| :: IsDigit(s[k])
  {
    if s == "" then 0 else 10 * Value(s[..|s| - 1]) + DigitValue(s[|s| - 1])
  }

  lemma {:induction false} ValueOfDecimal(n: nat)
    ensures Value(Decimal(n)) == n
  {
    if n < 10 {
      assert [Digit(n)][..0] == "";
    } else {
      ValueOfDecimal(n / 10);
      var s := Decimal(n / 10) + [Digit(n % 10)];
      assert s[..|s| - 1] == Decimal(n / 10);
    }
  }

  /** `str::parse::<u32>()`: an optional plus sign, then at least one digit, in range. */
  function ParseU32(s: string): (r: Option<nat>)
    ensures r.Some? ==> r.value < TWO32
  {
    var t := if |s| > 1 && s[0] == '+' then s[1..] else s;
    if t != "" && (forall k | 0 <= k < |t| :: IsDigit(t[k])) && Value(t) < TWO32
    then Some(Value(t)) else None
  }

  // ---------- replica names ----------

  function ReplicaName(service: string, index: nat): string {
    service + "-" + Decimal(index)
  }

  /** Strips the service name and one hyphen, parses, and rejects non-canonical numerals. */
  function ReplicaIndex(service: string, jail: string): Option<nat> {
    if !(service <= jail) then None
    else
      var rest := jail[|service|..];
      if rest == "" || rest[0] != '-' then None
      else
        var suffix := rest[1..];
        match ParseU32(suffix)
        case None => None
        case Some(i) => if Decimal(i) == suffix then Some(i) else None
  }

  /** A name is recognised with index `i` exactly when it is that service's replica name for `i`. */
  lemma ReplicaIndexIff(service: string, jail: string, i: nat)
    ensures ReplicaIndex(service, jail) == Some(i) <==> i < TWO32 && jail == ReplicaName(service, i)
  {
    if i < TWO32 && jail == ReplicaName(service, i) {
      var d := Decimal(i);
      assert jail[|service|..] == "-" + d;
      assert ("-" + d)[1..] == d;
      assert d[0] != '+' by { assert IsDigit(d[0]); }
      ValueOfDecimal(i);
    }
    if ReplicaIndex(service, jail) == Some(i) {
      var rest := jail[|service|..];
      assert jail == service + rest && rest == "-" + rest[1..];
    }
  }

  /** Numerals hold no hyphen, so the last hyphen of a replica name marks where the service name ends. */
  lemma ReplicaNameInjective(s: string, i: nat, t: string, j: nat)
    requires ReplicaName(s, i) == ReplicaName(t, j)
    ensures s == t && i == j
  {
    var n := ReplicaName(s, i);
    HyphenPlace(s, i, t, j);
    HyphenPlace(t, j, s, i);
    assert n[..|s|] == s && n[..|t|] == t;
    assert n[|s| + 1..] == Decimal(i) && n[|t| + 1..] == Decimal(j);
    ValueOfDecimal(i);
    ValueOfDecimal(j);
  }

  lemma HyphenPlace(s: string, i: nat, t: string, j: nat)
    ensures |s| < |t| ==> ReplicaName(s, i) != ReplicaName(t, j)
  {
    var n, d := ReplicaName(s, i), Decimal(i);
    if |s| < |t| < |n| {
      assert ReplicaName(t, j)[|t|] == '-';
      assert n[|t|] == d[|t| - |s| - 1] && IsDigit(n[|t|]);
    }
  }

  /** No jail name belongs to two services. */
  lemma OneService(s: string, t: string, jail: string)
    requires ReplicaIndex(s, jail).Some? && ReplicaIndex(t, jail).Some?
    ensures s == t
  {
    var i, j := ReplicaIndex(s, jail).value, ReplicaIndex(t, jail).value;
    ReplicaIndexIff(s, jail, i);
    ReplicaIndexIff(t, jail, j);
    ReplicaNameInjective(s, i, t, j);
  }
}
