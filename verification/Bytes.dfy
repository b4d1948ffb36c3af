/** Byte strings in lexicographic order, and the fixed-width and length-prefixed encodings
    that storage keys are built from. */
module Bytes {

  type Byte = n: int | 0 <= n < 256

  /** A UTF-8 string, as its bytes. */
  type Text = seq<Byte>

  // ---- Lexicographic order ----

  predicate Less(a: Text, b: Text) {
    if b == [] then false
    else if a == [] then true
    else if a[0] != b[0] then a[0] < b[0]
    else Less(a[1..], b[1..])
  }

  predicate AtMost(a: Text, b: Text) {
    a == b || Less(a, b)
  }

  lemma {:induction false} LessTrichotomy(a: Text, b: Text)
    ensures Less(a, b) || a == b || Less(b, a)
    ensures !(Less(a, b) && Less(b, a)) && !Less(a, a)
    decreases |a| + |b|
  {
    if a != [] && b != [] && a[0] == b[0] {
      LessTrichotomy(a[1..], b[1..]);
      assert a == [a[0]] + a[1..] && b == [b[0]] + b[1..];
    }
    if a != [] {
      LessIrreflexive(a[1..]);
    }
  }

  lemma {:induction false} LessIrreflexive(a: Text)
    ensures !Less(a, a)
  {
    if a != [] {
      LessIrreflexive(a[1..]);
    }
  }

  lemma {:induction false} LessTransitive(a: Text, b: Text, c: Text)
    requires Less(a, b) && Less(b, c)
    ensures Less(a, c)
    decreases |a|
  {
    if a != [] && a[0] == b[0] == c[0] {
      LessTransitive(a[1..], b[1..], c[1..]);
    }
  }

  /** A common prefix does not matter. */
  lemma {:induction false} LessAfterPrefix(p: Text, a: Text, b: Text)
    ensures Less(p + a, p + b) <==> Less(a, b)
  {
    if p == [] {
      assert p + a == a && p + b == b;
    } else {
      assert (p + a)[1..] == p[1..] + a && (p + b)[1..] == p[1..] + b;
      LessAfterPrefix(p[1..], a, b);
    }
  }

  /** Between strings that start with different strings of one length, those decide. */
  lemma {:induction false} LessByHeads(a: Text, x: Text, b: Text, y: Text)
    requires |a| == |b| && a != b
    ensures Less(a + x, b + y) <==> Less(a, b)
  {
    assert (a + x)[1..] == a[1..] + x && (b + y)[1..] == b[1..] + y;
    if a[0] == b[0] {
      assert a == [a[0]] + a[1..] && b == [b[0]] + b[1..];
      LessByHeads(a[1..], x, b[1..], y);
    }
  }

  lemma {:induction false} LessSnoc(a: Text, x: Byte, b: Text, y: Byte)
    requires |a| == |b|
    ensures Less(a + [x], b + [y]) <==> Less(a, b) || (a == b && x < y)
  {
    if a == b {
      LessAfterPrefix(a, [x], [y]);
      LessIrreflexive(a);
    } else {
      LessByHeads(a, [x], b, [y]);
    }
  }

  // ---- Sorting ----

  ghost predicate Ascending(s: seq<Text>) {
    forall i, j :: 0 <= i < j < |s| ==> Less(s[i], s[j])
  }

  lemma {:induction false} HasLeast(s: set<Text>)
    requires s != {}
    ensures exists a :: a in s && forall b :: b in s ==> AtMost(a, b)
    decreases s
  {
    var a :| a in s;
    if b0 :| b0 in s && !AtMost(a, b0) {
      var below := set b | b in s && !AtMost(a, b);
      assert b0 in below && a !in below;
      HasLeast(below);
      var c :| c in below && forall b :: b in below ==> AtMost(c, b);
      forall b | b in s
        ensures AtMost(c, b)
      {
        LessTrichotomy(a, c);
        if b !in below && a != b && c != b {
          LessTransitive(c, a, b);
        }
      }
    }
  }

  method Sort(texts: set<Text>) returns (s: seq<Text>)
    ensures Ascending(s) && (forall a :: a in s <==> a in texts)
  {
    hide Less;
    var rest := texts;
    s := [];
    while rest != {}
      invariant Ascending(s)
      invariant forall i, b :: 0 <= i < |s| && b in rest ==> Less(s[i], b)
      invariant forall b :: b in s || b in rest <==> b in texts
      decreases rest
    {
      HasLeast(rest);
      var least :| least in rest && forall b :: b in rest ==> AtMost(least, b);
      s, rest := s + [least], rest - {least};
    }
  }

  /** A set has one ascending list. */
  lemma {:induction false} AscendingUnique(s: seq<Text>, t: seq<Text>)
    requires Ascending(s) && Ascending(t) && forall a :: a in s <==> a in t
    ensures s == t
    decreases |s|
  {
    hide Less;
    assert t == [] || t[0] in t;
    if s != [] {
      assert s[|s| - 1] in s;
      var n, m := |s| - 1, |t| - 1;
      LastIsGreatest(s, t);
      forall a
        ensures a in s[..n] <==> a in t[..m]
      {
        InFront(s, a);
        InFront(t, a);
      }
      AscendingUnique(s[..n], t[..m]);
      assert s == s[..n] + [s[n]] && t == t[..m] + [t[m]];
    }
  }

  lemma LastIsGreatest(s: seq<Text>, t: seq<Text>)
    requires s != [] && t != [] && Ascending(s) && Ascending(t) && forall a :: a in s <==> a in t
    ensures s[|s| - 1] == t[|t| - 1]
  {
    hide Less;
    var n, m := |s| - 1, |t| - 1;
    assert s[n] in t && t[m] in s;
    var i :| 0 <= i < |t| && t[i] == s[n];
    var j :| 0 <= j < |s| && s[j] == t[m];
    LessTrichotomy(s[n], t[m]);
  }

  lemma InFront(s: seq<Text>, a: Text)
    requires s != [] && Ascending(s)
    ensures a in s[..|s| - 1] <==> a in s && a != s[|s| - 1]
  {
    hide Less;
    LessIrreflexive(a);
    if a in s && a != s[|s| - 1] {
      var i :| 0 <= i < |s| && s[i] == a;
      assert s[..|s| - 1][i] == a;
    }
  }

  // ---- Prefix ranges ----

  /** The exclusive upper bound of a prefix scan: the last byte below 0xFF is incremented
      and what follows it dropped; none if there is no such byte. */
  function PrefixUpperBound(p: Text): (r: Text)
    ensures |r| <= |p|
    decreases |p|
  {
    if p == [] then []
    else
      var n := |p| - 1;
      if p[n] < 255 then p[..n] + [p[n] + 1] else PrefixUpperBound(p[..n])
  }

  /** The loop of the source: increments the last byte, or pops it when it is 0xFF. An empty
      result stands for no bound. */
  method ComputePrefixUpperBound(p: Text) returns (end: Text)
    ensures end == PrefixUpperBound(p)
  {
    end := p;
    while end != []
      invariant PrefixUpperBound(end) == PrefixUpperBound(p)
      decreases |end|
    {
      var n := |end| - 1;
      if end[n] < 255 {
        end := end[..n] + [end[n] + 1];
        return;
      }
      end := end[..n];
    }
  }

  /** Inside `[start, end)`, with no bound for an empty `end`. */
  predicate InRange(k: Text, start: Text, end: Text) {
    AtMost(start, k) && (end == [] || Less(k, end))
  }

  lemma {:induction false} BelowBound(k: Text, p: Text)
    requires p <= k && PrefixUpperBound(p) != []
    ensures Less(k, PrefixUpperBound(p))
    decreases |p|
  {
    var n := |p| - 1;
    if p[n] < 255 {
      assert k == p[..n] + k[n..];
      LessAfterPrefix(p[..n], k[n..], [p[n] + 1]);
    } else {
      BelowBound(k, p[..n]);
    }
  }

  lemma {:induction false} PrefixAtMost(p: Text, k: Text)
    requires p <= k
    ensures AtMost(p, k)
  {
    if p != [] {
      PrefixAtMost(p[1..], k[1..]);
      assert p == [p[0]] + p[1..] && k == [k[0]] + k[1..];
    }
  }

  /** The strings from `p` up to its bound are exactly those that start with it. */
  lemma {:induction false} RangeIsPrefix(k: Text, p: Text)
    ensures InRange(k, p, PrefixUpperBound(p)) <==> p <= k
    decreases |p|
  {
    if p <= k {
      PrefixAtMost(p, k);
      if PrefixUpperBound(p) != [] {
        BelowBound(k, p);
      }
    } else {
      var n := |p| - 1;
      RangeIsPrefix(k, p[..n]);
      if AtMost(p, k) {
        assert p == p[..n] + [p[n]];
        ShorterAtMost(p[..n], [p[n]], k);
        if p[..n] <= k {
          NextByte(p, k);
        } else if p[n] < 255 && Less(k, PrefixUpperBound(p)) {
          assert p[..n] + [] == p[..n];
          Between(p[..n], [], [p[n] + 1], k);
        }
      }
    }
  }

  /** A string at or above an extension of `q` is at or above `q`. */
  lemma {:induction false} ShorterAtMost(q: Text, x: Text, k: Text)
    requires AtMost(q + x, k)
    ensures AtMost(q, k)
  {
    if q != [] && k != [] && q[0] == k[0] {
      assert (q + x)[1..] == q[1..] + x;
      ShorterAtMost(q[1..], x, k[1..]);
      assert q == [q[0]] + q[1..] && k == [k[0]] + k[1..];
    }
  }

  /** A string between two extensions of `q` starts with `q`. */
  lemma {:induction false} Between(q: Text, x: Text, y: Text, k: Text)
    requires AtMost(q + x, k) && Less(k, q + y)
    ensures q <= k
  {
    if q != [] {
      assert (q + x)[1..] == q[1..] + x && (q + y)[1..] == q[1..] + y;
      Between(q[1..], x, y, k[1..]);
    }
  }

  /** Above `p` but not an extension of it, though an extension of all but its last byte:
      the byte in that place is larger, so the string is past the bound. */
  lemma NextByte(p: Text, k: Text)
    requires p != [] && p[..|p| - 1] <= k && !(p <= k) && AtMost(p, k)
    ensures p[|p| - 1] < 255 && !Less(k, PrefixUpperBound(p))
  {
    var n := |p| - 1;
    var rest := k[n..];
    assert p == p[..n] + [p[n]] && k == p[..n] + rest;
    LessAfterPrefix(p[..n], [p[n]], rest);
    LessAfterPrefix(p[..n], rest, [p[n] + 1]);
    assert rest == [] || rest[0] != p[n];
  }

  // ---- Fixed-width big-endian numbers ----

  function Pow256(width: nat): nat {
    if width == 0 then 1 else 256 * Pow256(width - 1)
  }

  /** The low `width` bytes of `n`, most significant first. */
  function Be(n: nat, width: nat): (bytes: Text)
    ensures |bytes| == width
    decreases width, n
  {
    if width == 0 then [] else Be(n / 256, width - 1) + [n % 256]
  }

  function FromBe(bytes: Text): nat {
    if bytes == [] then 0 else FromBe(bytes[..|bytes| - 1]) * 256 + bytes[|bytes| - 1]
  }

  lemma {:induction false} BeRoundTrip(n: nat, width: nat)
    requires n < Pow256(width)
    ensures FromBe(Be(n, width)) == n
    decreases width
  {
    if width > 0 {
      BeRoundTrip(n / 256, width - 1);
      assert Be(n, width)[..width - 1] == Be(n / 256, width - 1);
    }
  }

  lemma BeInjective(a: nat, b: nat, width: nat)
    requires a < Pow256(width) && b < Pow256(width) && Be(a, width) == Be(b, width)
    ensures a == b
  {
    BeRoundTrip(a, width);
    BeRoundTrip(b, width);
  }

  /** Byte order is numeric order. */
  lemma {:induction false} BeOrder(a: nat, b: nat, width: nat)
    requires a < Pow256(width) && b < Pow256(width)
    ensures Less(Be(a, width), Be(b, width)) <==> a < b
    decreases width
  {
    if width > 0 {
      BeOrder(a / 256, b / 256, width - 1);
      LessSnoc(Be(a / 256, width - 1), a % 256, Be(b / 256, width - 1), b % 256);
      if Be(a / 256, width - 1) == Be(b / 256, width - 1) {
        BeInjective(a / 256, b / 256, width - 1);
      }
    }
  }

  // ---- Length-prefixed parts ----

  const MaxLen := 0x1_0000_0000

  /** `<len as u32, big-endian> <bytes>`. */
  function Lp(s: Text): Text {
    Be(|s| % MaxLen, 4) + s
  }

  predicate Short(s: Text) {
    |s| < MaxLen
  }

  lemma Pow256Values()
    ensures Pow256(4) == MaxLen && Pow256(8) == 0x1_0000_0000_0000_0000 && Pow256(1) == 256
  {
    assert Pow256(2) == 65536;
    assert Pow256(3) == 65536 * 256;
    assert Pow256(4) == 65536 * 65536;
    assert Pow256(5) == 256 * Pow256(4);
    assert Pow256(6) == 256 * Pow256(5);
    assert Pow256(7) == 256 * Pow256(6);
  }

  /** A length-prefixed part ends where it says: no such part is a prefix of another. */
  lemma LpPrefixFree(a: Text, x: Text, b: Text, y: Text)
    requires Short(a) && Short(b) && Lp(a) + x == Lp(b) + y
    ensures a == b && x == y
  {
    hide Be, Pow256;
    Pow256Values();
    var n, m := Be(|a|, 4), Be(|b|, 4);
    Associate(n, a, x);
    Associate(m, b, y);
    FixedPrefix(n, a + x, m, b + y);
    BeInjective(|a|, |b|, 4);
    FixedPrefix(a, x, b, y);
  }

  lemma Associate(a: Text, b: Text, c: Text)
    ensures (a + b) + c == a + (b + c)
  {
  }

  /** Parts of one fixed width. */
  lemma FixedPrefix(a: Text, x: Text, b: Text, y: Text)
    requires |a| == |b| && a + x == b + y
    ensures a == b && x == y
  {
    assert a == (a + x)[..|a|] && b == (b + y)[..|b|];
    assert x == (a + x)[|a|..] && y == (b + y)[|b|..];
  }

  // ---- Signed 64-bit numbers ----

  const SignBit := 0x8000_0000_0000_0000

  type I64 = w: int | -0x8000_0000_0000_0000 <= w < 0x8000_0000_0000_0000

  const MinI64: I64 := -0x8000_0000_0000_0000
  const MaxI64: I64 := 0x7fff_ffff_ffff_ffff

  /** `w as u64`: two's complement. */
  function AsU64(w: I64): (u: nat)
    ensures u < 2 * SignBit
  {
    if w < 0 then w + 2 * SignBit else w
  }

  /** `u as i64`. */
  function AsI64(u: nat): I64
    requires u < 2 * SignBit
  {
    if u < SignBit then u else u - 2 * SignBit
  }

  /** `u ^ (i64::MIN as u64)`: the top bit flipped. */
  function FlipSign(u: nat): (r: nat)
    requires u < 2 * SignBit
    ensures r < 2 * SignBit
  {
    if u < SignBit then u + SignBit else u - SignBit
  }

  /** Order-preserving bytes of a signed weight. */
  function WeightObe(w: I64): (bytes: Text)
    ensures |bytes| == 8
  {
    Be(FlipSign(AsU64(w)), 8)
  }

  function WeightFromObe(bytes: Text): I64
    requires |bytes| == 8 && FromBe(bytes) < 2 * SignBit
  {
    AsI64(FlipSign(FromBe(bytes)))
  }

  lemma ObeRoundTrip(w: I64)
    ensures FromBe(WeightObe(w)) < 2 * SignBit
    ensures WeightFromObe(WeightObe(w)) == w
  {
    Pow256Values();
    BeRoundTrip(FlipSign(AsU64(w)), 8);
  }

  /** Byte order of encoded weights is the order of the weights. */
  lemma ObeOrder(a: I64, b: I64)
    ensures Less(WeightObe(a), WeightObe(b)) <==> a < b
    ensures WeightObe(a) == WeightObe(b) <==> a == b
  {
    Pow256Values();
    BeOrder(FlipSign(AsU64(a)), FlipSign(AsU64(b)), 8);
    ObeRoundTrip(a);
    ObeRoundTrip(b);
  }

  lemma {:induction false} FromBeBound(bytes: Text)
    ensures FromBe(bytes) < Pow256(|bytes|)
  {
    if bytes != [] {
      FromBeBound(bytes[..|bytes| - 1]);
    }
  }
}
