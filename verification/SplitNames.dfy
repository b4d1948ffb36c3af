/** The names of splits: a word and a number padded with zeros to six digits. Names sort like
    their numbers as long as six digits are enough; `SplitOrder` is about when they are created. */
module SplitNames {
  import opened Bytes
  import opened Decimal
  import opened Splits

  const Width: nat := 6
  const Dash: Byte := 45

  /** `split-` and `compacted-`. */
  const SplitWord: Text := [115, 112, 108, 105, 116, Dash]
  const CompactedWord: Text := [99, 111, 109, 112, 97, 99, 116, 101, 100, Dash]

  /** `.split`. */
  const Ending: Text := [46, 115, 112, 108, 105, 116]

  /** Decimal digits, at least `width` of them. */
  function Padded(n: nat, width: nat): (s: Text)
    ensures |s| >= 1 && |s| >= width
    decreases n + width
  {
    if n < 10 && width <= 1 then [Zero + n]
    else Padded(n / 10, if width == 0 then 0 else width - 1) + [Zero + n % 10]
  }

  /** The name of a split's blob, after the prefix that all splits of its index share. */
  function BlobName(id: SplitId): Text {
    match id
    case Appended(n) => SplitWord + (Padded(n, Width) + Ending)
    case Compacted(g) => CompactedWord + (Padded(g, Width) + Ending)
  }

  // ---- No two splits share a name ----

  lemma {:induction false} PaddedValue(n: nat, width: nat)
    ensures Value(Padded(n, width)) == n
    decreases n + width
  {
    var s := Padded(n, width);
    if n < 10 && width <= 1 {
      assert s[..0] == [] && Value(s[..0]) == 0;
    } else {
      var w := if width == 0 then 0 else width - 1;
      PaddedValue(n / 10, w);
      assert s[..|s| - 1] == Padded(n / 10, w);
    }
  }

  lemma PaddedInjective(a: nat, b: nat)
    requires Padded(a, Width) + Ending == Padded(b, Width) + Ending
    ensures a == b
  {
    hide Padded, Value;
    var s, t := Padded(a, Width) + Ending, Padded(b, Width) + Ending;
    assert s[..|s| - 6] == Padded(a, Width) && t[..|t| - 6] == Padded(b, Width);
    PaddedValue(a, Width);
    PaddedValue(b, Width);
  }

  lemma NamesDistinct(a: SplitId, b: SplitId)
    requires BlobName(a) == BlobName(b)
    ensures a == b
  {
    hide Padded;
    assert BlobName(a)[0] == if a.Appended? then 115 else 99;
    assert BlobName(b)[0] == if b.Appended? then 115 else 99;
    match a
    case Appended(n) =>
      FixedPrefix(SplitWord, Padded(n, Width) + Ending, SplitWord, Padded(b.seqNo, Width) + Ending);
      PaddedInjective(n, b.seqNo);
    case Compacted(g) =>
      FixedPrefix(CompactedWord, Padded(g, Width) + Ending, CompactedWord, Padded(b.gen, Width) + Ending);
      PaddedInjective(g, b.gen);
  }

  // ---- Names and numbers ----

  function Pow10(k: nat): (p: nat)
    ensures p >= 1
  {
    if k == 0 then 1 else 10 * Pow10(k - 1)
  }

  /** Numbers of at most `width` digits sort like their padded texts, whatever follows. */
  lemma {:induction false} PaddedOrder(a: nat, b: nat, width: nat, x: Text, y: Text)
    requires a < b < Pow10(width)
    ensures Less(Padded(a, width) + x, Padded(b, width) + y)
    decreases width
  {
    hide Less;
    if width == 1 {
      assert Pow10(1) == 10 * Pow10(0);
      DigitOrder(a, b, x, y);
    } else {
      var p, q := Padded(a / 10, width - 1), Padded(b / 10, width - 1);
      assert (p + [Zero + a % 10]) + x == p + ([Zero + a % 10] + x);
      assert (q + [Zero + b % 10]) + y == q + ([Zero + b % 10] + y);
      if a / 10 < b / 10 {
        PaddedOrder(a / 10, b / 10, width - 1, [Zero + a % 10] + x, [Zero + b % 10] + y);
      } else {
        DigitOrder(a % 10, b % 10, x, y);
        LessAfterPrefix(p, [Zero + a % 10] + x, [Zero + b % 10] + y);
      }
    }
  }

  lemma DigitOrder(a: nat, b: nat, x: Text, y: Text)
    requires a < b < 10
    ensures Less([Zero + a] + x, [Zero + b] + y)
  {
  }

  /** A padded number is as long as its digits need, but at least `width`. */
  lemma {:induction false} PaddedLength(n: nat, width: nat)
    ensures var l := |Padded(n, width)|;
      n < Pow10(l) && (l <= width || l == 1 || Pow10(l - 1) <= n) && Padded(n, l) == Padded(n, width)
    decreases n + width
  {
    if n >= 10 || width > 1 {
      PaddedLength(n / 10, if width == 0 then 0 else width - 1);
    } else {
      assert Pow10(1) == 10 * Pow10(0);
    }
  }

  /** The number without its last `t` digits. */
  function Cut(n: nat, t: nat): nat {
    if t == 0 then n else Cut(n / 10, t - 1)
  }

  lemma {:induction false} PaddedTop(n: nat, l: nat, t: nat) returns (x: Text)
    requires t < l
    ensures |x| == t && (t > 0 ==> x[0] >= Zero) && Padded(n, l) == Padded(Cut(n, t), l - t) + x
    decreases t
  {
    if t == 0 {
      x := [];
    } else {
      var y := PaddedTop(n / 10, l - 1, t - 1);
      x := y + [Zero + n % 10];
    }
  }

  lemma {:induction false} Pow10Monotone(i: nat, j: nat)
    requires i <= j
    ensures Pow10(i) <= Pow10(j)
    decreases j
  {
    if i < j {
      Pow10Monotone(i, j - 1);
    }
  }

  predicate SplitBefore(a: nat, b: nat) {
    Less(BlobName(Appended(a)), BlobName(Appended(b)))
  }

  lemma SplitBeforeIs(a: nat, b: nat)
    ensures SplitBefore(a, b) <==> Less(Padded(a, Width) + Ending, Padded(b, Width) + Ending)
  {
    hide Less, Padded;
    LessAfterPrefix(SplitWord, Padded(a, Width) + Ending, Padded(b, Width) + Ending);
  }

  function NumDigits(n: nat): (l: nat)
    ensures l >= 6
  {
    |Padded(n, Width)|
  }

  lemma NumDigitsAre(n: nat)
    ensures n < Pow10(NumDigits(n)) && (NumDigits(n) == 6 || Pow10(NumDigits(n) - 1) <= n)
    ensures Padded(n, NumDigits(n)) == Padded(n, Width)
  {
    hide Padded;
    PaddedLength(n, Width);
  }

  lemma FewerDigits(a: nat, n: nat)
    requires a <= n
    ensures NumDigits(a) <= NumDigits(n)
  {
    hide NumDigits, Pow10;
    NumDigitsAre(a);
    NumDigitsAre(n);
    if NumDigits(a) > NumDigits(n) {
      Pow10Monotone(NumDigits(n), NumDigits(a) - 1);
    }
  }

  /** Two names compare like the numbers cut to the digits of the shorter one, and the shorter
      one comes first where these agree. */
  lemma NameBefore(a: nat, n: nat)
    requires a < n
    ensures NumDigits(a) <= NumDigits(n)
    ensures SplitBefore(a, n) <==> a <= Cut(n, NumDigits(n) - NumDigits(a))
  {
    hide Less, Padded, NumDigits, Pow10, Cut, SplitBefore;
    FewerDigits(a, n);
    NumDigitsAre(a);
    NumDigitsAre(n);
    SplitBeforeIs(a, n);
    var l := NumDigits(n);
    if NumDigits(a) == l {
      PaddedOrder(a, n, l, Ending, Ending);
      CutNone(n);
    } else {
      ShorterBefore(a, n, NumDigits(a), l);
    }
  }

  lemma CutNone(n: nat)
    ensures Cut(n, 0) == n
  {
  }

  lemma ShorterBefore(a: nat, n: nat, i: nat, l: nat)
    requires a < Pow10(i) && n < Pow10(l) && 0 < i < l
    ensures Less(Padded(a, i) + Ending, Padded(n, l) + Ending) <==> a <= Cut(n, l - i)
  {
    hide Less, Padded, Pow10, Cut;
    var x := PaddedTop(n, l, l - i);
    CutBelow(n, i, l - i);
    TopCompares(a, Cut(n, l - i), i, x);
    assert Padded(Cut(n, l - i), i) + x + Ending == Padded(Cut(n, l - i), i) + (x + Ending);
  }

  lemma {:induction false} CutBelow(n: nat, i: nat, t: nat)
    requires n < Pow10(i + t)
    ensures Cut(n, t) < Pow10(i)
    decreases t
  {
    if t > 0 {
      CutBelow(n / 10, i, t - 1);
    }
  }

  lemma TopCompares(a: nat, p: nat, i: nat, x: Text)
    requires a < Pow10(i) && p < Pow10(i) && x != [] && x[0] >= Zero
    ensures Less(Padded(a, i) + Ending, Padded(p, i) + (x + Ending)) <==> a <= p
  {
    hide Padded;
    if a < p {
      PaddedOrder(a, p, i, Ending, x + Ending);
    } else if a > p {
      PaddedOrder(p, a, i, x + Ending, Ending);
      LessTrichotomy(Padded(a, i) + Ending, Padded(p, i) + (x + Ending));
    } else {
      LessAfterPrefix(Padded(a, i), Ending, x + Ending);
      assert Less(Ending, x + Ending);
    }
  }

  predicate IsPow10(n: nat) {
    n == 1 || (n > 0 && n % 10 == 0 && IsPow10(n / 10))
  }

  lemma {:induction false} Pow10IsPow10(k: nat)
    ensures IsPow10(Pow10(k))
  {
    if k > 0 {
      Pow10IsPow10(k - 1);
    }
  }

  lemma {:induction false} IsPow10Of(n: nat, k: nat)
    requires IsPow10(n) && Pow10(k) <= n < Pow10(k + 1)
    ensures n == Pow10(k)
  {
    if k > 0 {
      TenTimes(k - 1);
      TenTimes(k);
      IsPow10Of(n / 10, k - 1);
    }
  }

  /** Six digits are enough, or all digits but the last are nines. */
  predicate NameIsLast(n: nat) {
    n < 1_000_000 || IsPow10(n / 10 + 1)
  }

  lemma Million()
    ensures Pow10(6) == 1_000_000
  {
    assert Pow10(3) == 1000;
  }

  lemma TenTimes(k: nat)
    ensures Pow10(k + 1) == 10 * Pow10(k)
  {
  }

  lemma NineDigits(k: nat)
    requires k >= 6
    ensures NumDigits(Pow10(k) - 1) == k
  {
    hide NumDigits, Pow10;
    var a := Pow10(k) - 1;
    var l := NumDigits(a);
    NumDigitsAre(a);
    TenTimes(k - 1);
    if l > k {
      Pow10Monotone(k, l - 1);
    } else if l < k {
      Pow10Monotone(l, k - 1);
    }
  }

  lemma {:induction false} CutNines(j: nat, t: nat)
    ensures Cut(Pow10(j + t) - 1, t) == Pow10(j) - 1
    decreases t
  {
    if t > 0 {
      assert (Pow10(j + t) - 1) / 10 == Pow10(j + t - 1) - 1;
      CutNines(j, t - 1);
    }
  }

  lemma NinesAreLast(a: nat, n: nat)
    requires a < n && n / 10 + 1 == Pow10(NumDigits(n) - 1)
    ensures SplitBefore(a, n)
  {
    hide SplitBefore, NumDigits;
    var i, l := NumDigits(a), NumDigits(n);
    NameBefore(a, n);
    if i < l {
      CutNines(i, l - 1 - i);
      NumDigitsAre(a);
    }
  }

  lemma SixDigits(n: nat)
    requires NumDigits(n) == 6
    ensures NameIsLast(n) && forall a: nat :: a < n ==> SplitBefore(a, n)
  {
    hide SplitBefore, NumDigits, Pow10, Cut;
    NumDigitsAre(n);
    Million();
    forall a: nat | a < n
      ensures SplitBefore(a, n)
    {
      NameBefore(a, n);
      CutNone(n);
    }
  }

  /** Beyond six digits, the nines with one digit fewer are in the way of all but themselves. */
  lemma NinesInTheWay(n: nat)
    requires NumDigits(n) > 6
    ensures var a := Pow10(NumDigits(n) - 1) - 1;
      a < n && (SplitBefore(a, n) <==> n / 10 + 1 == Pow10(NumDigits(n) - 1))
  {
    hide SplitBefore, NumDigits;
    var l := NumDigits(n);
    NumDigitsAre(n);
    NineDigits(l - 1);
    NameBefore(Pow10(l - 1) - 1, n);
    assert Cut(n, 1) == Cut(n / 10, 0) == n / 10;
    TenTimes(l - 1);
  }

  lemma NinesArePower(n: nat)
    requires NumDigits(n) > 6
    ensures n >= 1_000_000 && (NameIsLast(n) <==> n / 10 + 1 == Pow10(NumDigits(n) - 1))
  {
    hide NumDigits, IsPow10, Pow10;
    var l := NumDigits(n);
    NumDigitsAre(n);
    Million();
    Pow10Monotone(6, l - 1);
    TenTimes(l - 2);
    TenTimes(l - 1);
    Pow10IsPow10(l - 1);
    if IsPow10(n / 10 + 1) && n / 10 + 1 < Pow10(l - 1) {
      IsPow10Of(n / 10 + 1, l - 2);
    }
  }

  /** The name of a number sorts after the names of all smaller ones exactly then. */
  lemma LastNameExactly(n: nat)
    ensures (forall a: nat :: a < n ==> SplitBefore(a, n)) <==> NameIsLast(n)
  {
    hide SplitBefore, NumDigits, IsPow10, Pow10, NameIsLast;
    if NumDigits(n) == 6 {
      SixDigits(n);
    } else {
      NinesInTheWay(n);
      NinesArePower(n);
      if n / 10 + 1 == Pow10(NumDigits(n) - 1) {
        forall a: nat | a < n
          ensures SplitBefore(a, n)
        {
          NinesAreLast(a, n);
        }
      }
    }
  }

  ghost predicate NamesInOrder(n: nat) {
    forall a: nat, b: nat :: a < b < n ==> SplitBefore(a, b)
  }

  /** The names of the numbers below `n` sort like the numbers exactly up to a million. */
  lemma NamesSortByNumber(n: nat)
    ensures NamesInOrder(n) <==> n <= 1_000_000
  {
    hide SplitBefore;
    if n <= 1_000_000 {
      forall a: nat, b: nat | a < b < n
        ensures SplitBefore(a, b)
      {
        LastNameExactly(b);
      }
    } else {
      LastNameExactly(1_000_000);
      assert 1_000_000 / 10 + 1 == 100_001 && !IsPow10(100_001);
    }
  }
}
