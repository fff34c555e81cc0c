/** 128-bit identifiers, their canonical text form, and the half-open range test the
    in-memory store applies to that text. */
module Uuids {

  /** An octet. */
  type Byte = b: int | 0 <= b < 256

  /** A 128-bit identifier: sixteen bytes, most significant first. */
  type Uuid = s: seq<Byte> | |s| == 16 witness [0, 0, 0, 0, 0, 0, 0, 0, 0, 0, 0, 0, 0, 0, 0, 0]

  /** The all-zero identifier. */
  const Nil: Uuid := seq(16, _ => 0)

  /** The all-ones identifier, the largest one. */
  const AllOnes: Uuid := seq(16, _ => 255)

  function Pow256(n: nat): (p: nat)
    ensures p >= 1
  {
    if n == 0 then 1 else 256 * Pow256(n - 1)
  }

  /** The number a byte string denotes, read big-endian; it fits in |s| bytes. */
  function Value(s: seq<Byte>): (v: nat)
    ensures v < Pow256(|s|)
  {
    if s == [] then 0
    else
      var p := Pow256(|s| - 1);
      MulMonotone(s[0], 255, p);
      s[0] * p + Value(s[1..])
  }

  lemma MulMonotone(a: nat, b: nat, p: nat)
    requires a <= b
    ensures a * p <= b * p
  {
  }

  // ---------------------------------------------------------------------------
  // Canonical text form
  // ---------------------------------------------------------------------------

  /** Lower-case hexadecimal digit of a nibble. */
  function HexDigit(n: int): char
    requires 0 <= n < 16
  {
    if n < 10 then (48 + n) as char else (87 + n) as char
  }

  /** The text that the byte at position `i` contributes: a dash before bytes 4, 6, 8
      and 10 (the 8-4-4-4-12 grouping), then its two hexadecimal digits. */
  function ByteText(i: nat, b: Byte): string
  {
    (if i == 4 || i == 6 || i == 8 || i == 10 then "-" else "") + [HexDigit(b / 16), HexDigit(b % 16)]
  }

  /** The text of `bytes`, the first of which sits at position `i`. */
  function Render(bytes: seq<Byte>, i: nat): string
  {
    if bytes == [] then "" else ByteText(i, bytes[0]) + Render(bytes[1..], i + 1)
  }

  /** The canonical form `xxxxxxxx-xxxx-xxxx-xxxx-xxxxxxxxxxxx`. */
  function Canonical(id: Uuid): string
  {
    Render(id, 0)
  }

  /** Number of dash positions among byte positions [lo, hi). */
  function DashesBetween(lo: nat, hi: nat): nat
    decreases hi - lo
  {
    if hi <= lo then 0
    else (if lo == 4 || lo == 6 || lo == 8 || lo == 10 then 1 else 0) + DashesBetween(lo + 1, hi)
  }

  lemma {:induction false} NoDashesAfterTen(lo: nat, hi: nat)
    requires lo > 10
    ensures DashesBetween(lo, hi) == 0
    decreases hi - lo
  {
    if lo < hi {
      NoDashesAfterTen(lo + 1, hi);
    }
  }

  lemma {:induction false} RenderLength(bytes: seq<Byte>, i: nat)
    ensures |Render(bytes, i)| == 2 * |bytes| + DashesBetween(i, i + |bytes|)
  {
    if bytes != [] {
      RenderLength(bytes[1..], i + 1);
    }
  }

  /** The canonical form has a fixed width of 36 characters. */
  lemma CanonicalLength(id: Uuid)
    ensures |Canonical(id)| == 36
  {
    RenderLength(id, 0);
    NoDashesAfterTen(11, 16);
    assert DashesBetween(10, 16) == 1;
    assert DashesBetween(8, 16) == 2;
    assert DashesBetween(6, 16) == 3;
    assert DashesBetween(4, 16) == 4;
    assert DashesBetween(0, 16) == 4;
  }

  // ---------------------------------------------------------------------------
  // String order
  // ---------------------------------------------------------------------------

  /** Byte-wise lexicographic order of strings, where a proper prefix comes first. */
  predicate StrLess(a: string, b: string)
  {
    if a == [] then b != []
    else if b == [] then false
    else if a[0] != b[0] then a[0] < b[0]
    else StrLess(a[1..], b[1..])
  }

  /** After equally long prefixes, the first differing prefix decides the order. */
  lemma {:induction false} PrefixDecides(p: string, q: string, s: string, t: string)
    requires |p| == |q|
    ensures StrLess(p + s, q + t) == if p == q then StrLess(s, t) else StrLess(p, q)
  {
    if p == [] {
      assert p + s == s && q + t == t;
    } else {
      assert (p + s)[0] == p[0] && (p + s)[1..] == p[1..] + s;
      assert (q + t)[0] == q[0] && (q + t)[1..] == q[1..] + t;
      assert p == [p[0]] + p[1..] && q == [q[0]] + q[1..];
      PrefixDecides(p[1..], q[1..], s, t);
    }
  }

  lemma HexDigitOrder(m: int, n: int)
    requires 0 <= m < 16 && 0 <= n < 16
    ensures HexDigit(m) < HexDigit(n) <==> m < n
    ensures HexDigit(m) == HexDigit(n) <==> m == n
  {
  }

  /** The text of one byte orders like the byte itself. */
  lemma ByteTextOrder(i: nat, x: Byte, y: Byte)
    ensures |ByteText(i, x)| == |ByteText(i, y)|
    ensures ByteText(i, x) == ByteText(i, y) <==> x == y
    ensures StrLess(ByteText(i, x), ByteText(i, y)) <==> x < y
  {
    var dash := if i == 4 || i == 6 || i == 8 || i == 10 then "-" else "";
    var tx := [HexDigit(x / 16), HexDigit(x % 16)];
    var ty := [HexDigit(y / 16), HexDigit(y % 16)];
    HexDigitOrder(x / 16, y / 16);
    HexDigitOrder(x % 16, y % 16);
    PrefixDecides(dash, dash, tx, ty);
    assert tx[1..] == [tx[1]] && ty[1..] == [ty[1]];
    assert StrLess([tx[1]][1..], [ty[1]][1..]) == false;
    assert x == 16 * (x / 16) + x % 16 && y == 16 * (y / 16) + y % 16;
    if ByteText(i, x) == ByteText(i, y) {
      assert tx == (dash + tx)[|dash|..] == (dash + ty)[|dash|..] == ty;
    }
  }

  /** A smaller leading byte means a smaller value, whatever follows. */
  lemma LeadingByteDecides(a: seq<Byte>, b: seq<Byte>)
    requires |a| == |b| > 0 && a[0] < b[0]
    ensures Value(a) < Value(b)
  {
    var p := Pow256(|a| - 1);
    MulMonotone(a[0] + 1, b[0], p);
    assert Value(a) == a[0] * p + Value(a[1..]) < a[0] * p + p == (a[0] + 1) * p;
  }

  lemma {:induction false} RenderOrder(a: seq<Byte>, b: seq<Byte>, i: nat)
    requires |a| == |b|
    ensures StrLess(Render(a, i), Render(b, i)) <==> Value(a) < Value(b)
  {
    if a != [] {
      ByteTextOrder(i, a[0], b[0]);
      PrefixDecides(ByteText(i, a[0]), ByteText(i, b[0]), Render(a[1..], i + 1), Render(b[1..], i + 1));
      if a[0] == b[0] {
        RenderOrder(a[1..], b[1..], i + 1);
      } else if a[0] < b[0] {
        LeadingByteDecides(a, b);
      } else {
        LeadingByteDecides(b, a);
      }
    }
  }

  /** Comparing canonical texts as strings agrees with comparing the identifiers as
      128-bit numbers. */
  lemma CanonicalOrder(a: Uuid, b: Uuid)
    ensures StrLess(Canonical(a), Canonical(b)) <==> Value(a) < Value(b)
  {
    RenderOrder(a, b, 0);
  }

  /** Equal-length byte strings with equal values are equal. */
  lemma {:induction false} ValueInjective(a: seq<Byte>, b: seq<Byte>)
    requires |a| == |b| && Value(a) == Value(b)
    ensures a == b
  {
    if a != [] {
      if a[0] < b[0] {
        LeadingByteDecides(a, b);
      } else if b[0] < a[0] {
        LeadingByteDecides(b, a);
      } else {
        ValueInjective(a[1..], b[1..]);
        assert a == [a[0]] + a[1..] && b == [b[0]] + b[1..];
      }
    }
  }

  lemma {:induction false} AllZeroValue(s: seq<Byte>)
    requires forall k :: 0 <= k < |s| ==> s[k] == 0
    ensures Value(s) == 0
  {
    if s != [] {
      AllZeroValue(s[1..]);
    }
  }

  lemma {:induction false} AllMaxValue(s: seq<Byte>)
    requires forall k :: 0 <= k < |s| ==> s[k] == 255
    ensures Value(s) == Pow256(|s|) - 1
  {
    if s != [] {
      AllMaxValue(s[1..]);
    }
  }

  // ---------------------------------------------------------------------------
  // Half-open ranges
  // ---------------------------------------------------------------------------

  /** `from <= id < to`, decided on the canonical texts as the store does. */
  predicate InRange(id: Uuid, from: Uuid, to: Uuid)
  {
    var text := Canonical(id);
    !StrLess(text, Canonical(from)) && StrLess(text, Canonical(to))
  }

  /** The textual range test is the numeric one. */
  lemma InRangeByValue(id: Uuid, from: Uuid, to: Uuid)
    ensures InRange(id, from, to) <==> Value(from) <= Value(id) < Value(to)
  {
    CanonicalOrder(id, from);
    CanonicalOrder(id, to);
  }

  /** The all-ones identifier has the largest value, and no other identifier shares it. */
  lemma Largest(id: Uuid, top: Uuid)
    requires forall k :: 0 <= k < 16 ==> top[k] == 255
    ensures Value(id) <= Value(top)
    ensures Value(id) == Value(top) ==> id == top
  {
    AllMaxValue(top);
    if Value(id) == Value(top) {
      ValueInjective(id, top);
    }
  }

  /** Because the upper bound is exclusive and no identifier exceeds the all-ones one,
      the all-ones identifier lies in no range at all. */
  lemma AllOnesInNoRange(from: Uuid, to: Uuid)
    ensures !InRange(AllOnes, from, to)
  {
    InRangeByValue(AllOnes, from, to);
    Largest(to, AllOnes);
  }

  /** The widest range, [Nil, AllOnes), holds every other identifier. */
  lemma WidestRange(id: Uuid)
    ensures InRange(id, Nil, AllOnes) <==> id != AllOnes
  {
    InRangeByValue(id, Nil, AllOnes);
    AllZeroValue(Nil);
    Largest(id, AllOnes);
  }

  /** Partition boundaries in ascending order. */
  ghost predicate Ascending(bounds: seq<Uuid>)
  {
    forall k :: 0 <= k < |bounds| - 1 ==> Value(bounds[k]) <= Value(bounds[k + 1])
  }

  lemma {:induction false} AscendingSpan(bounds: seq<Uuid>, j: nat, k: nat)
    requires Ascending(bounds) && j <= k < |bounds|
    ensures Value(bounds[j]) <= Value(bounds[k])
    decreases k - j
  {
    if j < k {
      AscendingSpan(bounds, j + 1, k);
    }
  }

  /** The numeric form of the range test. */
  ghost predicate Within(id: Uuid, from: Uuid, to: Uuid)
  {
    Value(from) <= Value(id) < Value(to)
  }

  /** Consecutive ranges [b0, b1), [b1, b2), ... cover exactly [b0, bn). */
  lemma PartitionCovers(bounds: seq<Uuid>, id: Uuid)
    requires |bounds| >= 2 && Ascending(bounds)
    ensures InRange(id, bounds[0], bounds[|bounds| - 1])
        <==> exists k :: 0 <= k < |bounds| - 1 && InRange(id, bounds[k], bounds[k + 1])
  {
    InRangeByValue(id, bounds[0], bounds[|bounds| - 1]);
    forall k | 0 <= k < |bounds| - 1
      ensures InRange(id, bounds[k], bounds[k + 1]) <==> Within(id, bounds[k], bounds[k + 1])
    {
      InRangeByValue(id, bounds[k], bounds[k + 1]);
    }
    PartitionCoversByValue(bounds, id);
  }

  lemma {:induction false} PartitionCoversByValue(bounds: seq<Uuid>, id: Uuid)
    requires |bounds| >= 2 && Ascending(bounds)
    ensures Within(id, bounds[0], bounds[|bounds| - 1])
        <==> exists k :: 0 <= k < |bounds| - 1 && Within(id, bounds[k], bounds[k + 1])
  {
    var n := |bounds|;
    if n > 2 {
      var rest := bounds[1..];
      assert Ascending(rest);
      PartitionCoversByValue(rest, id);
      AscendingSpan(bounds, 1, n - 1);
      if exists k :: 0 <= k < n - 1 && Within(id, bounds[k], bounds[k + 1]) {
        var k :| 0 <= k < n - 1 && Within(id, bounds[k], bounds[k + 1]);
        if k > 0 {
          assert Within(id, rest[k - 1], rest[k]);
        }
      }
      if Within(id, bounds[1], bounds[n - 1]) {
        var k :| 0 <= k < n - 2 && Within(id, rest[k], rest[k + 1]);
        assert Within(id, bounds[k + 1], bounds[k + 2]);
      }
    }
  }

  /** No identifier lies in two different ranges of a partition. */
  lemma PartitionDisjoint(bounds: seq<Uuid>, id: Uuid, j: nat, k: nat)
    requires Ascending(bounds) && j < k < |bounds| - 1
    ensures !(InRange(id, bounds[j], bounds[j + 1]) && InRange(id, bounds[k], bounds[k + 1]))
  {
    InRangeByValue(id, bounds[j], bounds[j + 1]);
    InRangeByValue(id, bounds[k], bounds[k + 1]);
    AscendingSpan(bounds, j + 1, k);
  }
}
