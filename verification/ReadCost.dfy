/** How many records the storage-backed proofs read. */
module ReadCost {
  import opened Bits
  import opened Merkle
  import opened Frontiers
  import opened Bytes
  import opened Store
  import opened StoredProofs

  /** `lo` is the `q`-th multiple of the power of two `p`. */
  predicate AlignedTo(lo: nat, q: nat, p: nat) {
    IsPow2(p) && lo == q * p
  }

  // ---- Powers of two and their bits ----

  lemma Pow2Half(p: nat)
    requires IsPow2(p) && p > 1
    ensures IsPow2(p / 2) && p == 2 * (p / 2)
  {
  }

  lemma {:induction false} PopCountPow2(p: nat)
    requires IsPow2(p)
    ensures PopCount(p) == 1
  {
    if p > 1 {
      PopCountPow2(p / 2);
    }
  }

  /** Taking the top bit off takes one off the population count. */
  lemma {:induction false} PopCountTop(n: nat, k: nat)
    requires IsPow2(k) && k <= n < 2 * k
    ensures PopCount(n) == 1 + PopCount(n - k)
  {
    if k > 1 {
      PopCountTop(n / 2, k / 2);
      assert (n - k) / 2 == n / 2 - k / 2 && (n - k) % 2 == n % 2;
    } else {
      assert PopCount(1) == 1 + PopCount(0);
    }
  }

  lemma {:induction false} CeilLog2Mono(a: nat, b: nat)
    requires a <= b
    ensures CeilLog2(a) <= CeilLog2(b)
  {
    if a > 1 {
      CeilLog2Mono((a + 1) / 2, (b + 1) / 2);
    }
  }

  lemma {:induction false} CeilLog2Double(n: nat, k: nat)
    requires IsPow2(k) && k < n <= 2 * k
    ensures CeilLog2(n) == 1 + CeilLog2(k)
  {
    if k > 1 {
      CeilLog2Double((n + 1) / 2, k / 2);
      assert (k + 1) / 2 == k / 2;
    }
  }

  /** A number up to a power of two has at most its logarithm many 1-bits, or one. */
  lemma {:induction false} PopCountBound(x: nat, k: nat)
    requires IsPow2(k) && 1 <= x <= k
    ensures PopCount(x) <= 1 || PopCount(x) <= CeilLog2(k)
  {
    if x == k {
      PopCountPow2(k);
    } else {
      PopCountBelow(x, k);
    }
  }

  lemma {:induction false} PopCountBelow(x: nat, k: nat)
    requires IsPow2(k) && x < k
    ensures PopCount(x) <= CeilLog2(k)
  {
    if k > 1 {
      PopCountBelow(x / 2, k / 2);
      assert (k + 1) / 2 == k / 2;
    }
  }

  lemma AlignedHalves(lo: nat, q: nat, p: nat)
    requires AlignedTo(lo, q, p) && p > 1
    ensures AlignedTo(lo, 2 * q, p / 2)
    ensures AlignedTo(lo + p / 2, 2 * q + 1, p / 2)
  {
    Pow2Half(p);
    Doubled(q, p / 2);
    assert (2 * q) * (p / 2) == 2 * (q * (p / 2));
    RangeGrows(2 * q, p / 2);
  }

  lemma SmallMultiple(p: nat, d: int)
    requires 0 <= p * d < p
    ensures d == 0
  {
  }

  lemma MultipleMod(q: nat, p: nat)
    requires p > 0
    ensures (q * p) % p == 0
  {
    var x := q * p;
    var d, r := x / p, x % p;
    assert x == p * d + r;
    assert p * (q - d) == p * q - p * d;
    SmallMultiple(p, q - d);
  }

  /** The split of a range longer than half its alignment is that half. */
  lemma SplitAtHalf(n: nat, p: nat)
    requires IsPow2(p) && p / 2 < n <= p && n >= 2
    ensures SplitPoint(n) == p / 2
    ensures n < p ==> !IsPow2(n)
  {
    Pow2Half(p);
    SplitPointUnique(n, p / 2);
    if n < p && IsPow2(n) {
      Pow2Gap(p / 2, n);
    }
  }

  // ---- Subtree roots ----

  /** From a store that holds the leaves, a range that starts at a multiple of a power of
      two no shorter than it costs one read per 1-bit of its length. */
  lemma {:induction false} SubtreeReads(h: Hasher, st: State, chain: Text, leaves: seq<Digest>,
                                        lo: nat, hi: nat, q: nat, p: nat)
    requires KeepsTree(h, st, chain, leaves) && lo < hi <= |leaves|
    requires AlignedTo(lo, q, p) && hi - lo <= p
    ensures SubtreeRoot(h, st, chain, lo, hi).gets == PopCount(hi - lo)
    decreases p
  {
    hide Root, KeepsTree, SplitPoint, PopCount, AlignedTo, IsPow2, SubtreeRoot;
    var n := hi - lo;
    WidthBounds(lo, q, p);
    if n == 1 {
      SubtreeRootDirect(h, st, chain, lo, hi);
      PopCountOne();
    } else if n == p {
      WholeIsNode(lo, q, p);
      SubtreeRootDirect(h, st, chain, lo, hi);
      PopCountPow2(p);
    } else {
      AlignedHalves(lo, q, p);
      if n <= p / 2 {
        SubtreeReads(h, st, chain, leaves, lo, hi, 2 * q, p / 2);
      } else {
        var mid := lo + p / 2;
        SplitAtHalf(n, p);
        SubtreeRootIsRoot(h, st, chain, leaves, lo, mid);
        SubtreeRootIsRoot(h, st, chain, leaves, mid, hi);
        SubtreeRootSplit(h, st, chain, lo, hi, p / 2, Root(h, leaves[lo..mid]), Root(h, leaves[mid..hi]));
        SubtreeReads(h, st, chain, leaves, lo, mid, 2 * q, p / 2);
        SubtreeReads(h, st, chain, leaves, mid, hi, 2 * q + 1, p / 2);
        HalfBits(p);
        PopCountTop(n, p / 2);
      }
    }
  }

  lemma PopCountOne()
    ensures PopCount(1) == 1
  {
  }

  lemma WidthBounds(lo: nat, q: nat, p: nat)
    requires AlignedTo(lo, q, p)
    ensures IsPow2(p) && p >= 1 && p / 2 < p
    ensures p > 1 ==> p == 2 * (p / 2)
  {
  }

  lemma WholeIsNode(lo: nat, q: nat, p: nat)
    requires AlignedTo(lo, q, p)
    ensures p > 0 && lo % p == 0
  {
    MultipleMod(q, p);
  }

  lemma HalfBits(p: nat)
    requires IsPow2(p) && p > 1
    ensures IsPow2(p / 2) && PopCount(p / 2) == 1
  {
    PopCountPow2(p / 2);
  }

  // ---- Inclusion ----

  function InclusionBound(n: nat): int {
    if n == 1 then 0 else 2 * CeilLog2(n) - 1
  }

  /** Inside a complete subtree every level costs one read. */
  lemma {:induction false} InclReadsComplete(h: Hasher, st: State, chain: Text, leaves: seq<Digest>,
                                             lo: nat, hi: nat, index: nat, q: nat, p: nat)
    requires KeepsTree(h, st, chain, leaves) && lo <= index < hi <= |leaves|
    requires AlignedTo(lo, q, p) && hi - lo == p
    ensures Incl(h, st, chain, lo, hi, index).gets == CeilLog2(p)
    decreases p
  {
    hide Root, KeepsTree, SplitPoint, PopCount, AlignedTo, IsPow2, SubtreeRoot;
    if p > 1 {
      WidthBounds(lo, q, p);
      AlignedHalves(lo, q, p);
      SplitAtHalf(p, p);
      HalfBits(p);
      CeilLog2Double(p, p / 2);
      var mid := lo + p / 2;
      InclIsInclusionProof(h, st, chain, leaves, lo, hi, index);
      if index < mid {
        InclReadsComplete(h, st, chain, leaves, lo, mid, index, 2 * q, p / 2);
        SubtreeReads(h, st, chain, leaves, mid, hi, 2 * q + 1, p / 2);
      } else {
        InclReadsComplete(h, st, chain, leaves, mid, hi, index, 2 * q + 1, p / 2);
        SubtreeReads(h, st, chain, leaves, lo, mid, 2 * q, p / 2);
      }
    }
  }

  lemma {:induction false} InclReads(h: Hasher, st: State, chain: Text, leaves: seq<Digest>,
                                     lo: nat, hi: nat, index: nat, q: nat, p: nat)
    requires KeepsTree(h, st, chain, leaves) && lo <= index < hi <= |leaves|
    requires AlignedTo(lo, q, p) && hi - lo <= p
    ensures Incl(h, st, chain, lo, hi, index).gets <= InclusionBound(hi - lo)
    decreases p
  {
    hide Root, KeepsTree, SplitPoint, PopCount, AlignedTo, IsPow2, SubtreeRoot, CeilLog2;
    var n := hi - lo;
    if n > 1 {
      WidthBounds(lo, q, p);
      AlignedHalves(lo, q, p);
      if n <= p / 2 {
        InclReads(h, st, chain, leaves, lo, hi, index, 2 * q, p / 2);
      } else {
        SplitAtHalf(n, p);
        HalfBits(p);
        CeilLog2Double(n, p / 2);
        var mid := lo + p / 2;
        InclIsInclusionProof(h, st, chain, leaves, lo, hi, index);
        if index < mid {
          InclReadsComplete(h, st, chain, leaves, lo, mid, index, 2 * q, p / 2);
          SubtreeReads(h, st, chain, leaves, mid, hi, 2 * q + 1, p / 2);
          PopCountBound(hi - mid, p / 2);
        } else {
          InclReads(h, st, chain, leaves, mid, hi, index, 2 * q + 1, p / 2);
          SubtreeReads(h, st, chain, leaves, lo, mid, 2 * q, p / 2);
          CeilLog2Mono(hi - mid, p / 2);
        }
      }
    }
  }

  lemma EnclosingPow2(n: nat) returns (p: nat)
    requires n >= 1
    ensures IsPow2(p) && n <= p
  {
    if n == 1 {
      p := 1;
    } else {
      SplitPointIsPow2(n);
      p := 2 * SplitPoint(n);
    }
  }

  /** An inclusion proof against a tree of `size` leaves reads at most
      `2 * ceil(log2(size)) - 1` records, and none for a single leaf. */
  lemma InclusionReads(h: Hasher, st: State, chain: Text, leaves: seq<Digest>, index: nat, size: nat)
    requires KeepsTree(h, st, chain, leaves) && index < size <= |leaves|
    ensures Inclusion(h, st, chain, index, size).gets <= InclusionBound(size)
  {
    var p := EnclosingPow2(size);
    InclReads(h, st, chain, leaves, 0, size, index, 0, p);
  }

  // ---- Consistency ----

  lemma {:induction false} SubproofReadsComplete(h: Hasher, st: State, chain: Text, leaves: seq<Digest>,
                                                 m: nat, lo: nat, hi: nat, known: bool, q: nat, p: nat)
    requires KeepsTree(h, st, chain, leaves) && lo < hi <= |leaves| && 0 < m <= hi - lo
    requires AlignedTo(lo, q, p) && hi - lo == p
    ensures StoredSubproof(h, st, chain, m, lo, hi, known).gets <= CeilLog2(p) + 1
    decreases p
  {
    hide Root, KeepsTree, SplitPoint, PopCount, AlignedTo, IsPow2, SubtreeRoot, CeilLog2;
    WidthBounds(lo, q, p);
    if m == p {
      SubtreeReads(h, st, chain, leaves, lo, hi, q, p);
      PopCountPow2(p);
    } else {
      AlignedHalves(lo, q, p);
      SplitAtHalf(p, p);
      HalfBits(p);
      CeilLog2Double(p, p / 2);
      var mid := lo + p / 2;
      if m <= p / 2 {
        SubproofReadsComplete(h, st, chain, leaves, m, lo, mid, known, 2 * q, p / 2);
        SubtreeReads(h, st, chain, leaves, mid, hi, 2 * q + 1, p / 2);
      } else {
        SubproofReadsComplete(h, st, chain, leaves, m - p / 2, mid, hi, false, 2 * q + 1, p / 2);
        SubtreeReads(h, st, chain, leaves, lo, mid, 2 * q, p / 2);
      }
    }
  }

  lemma {:induction false} SubproofReads(h: Hasher, st: State, chain: Text, leaves: seq<Digest>,
                                         m: nat, lo: nat, hi: nat, known: bool, q: nat, p: nat)
    requires KeepsTree(h, st, chain, leaves) && lo < hi <= |leaves| && 0 < m <= hi - lo
    requires AlignedTo(lo, q, p) && hi - lo <= p
    ensures StoredSubproof(h, st, chain, m, lo, hi, known).gets <= 2 * CeilLog2(hi - lo) + 1
    decreases p
  {
    hide Root, KeepsTree, SplitPoint, PopCount, AlignedTo, IsPow2, SubtreeRoot, CeilLog2;
    var n := hi - lo;
    WidthBounds(lo, q, p);
    if n == p {
      SubproofReadsComplete(h, st, chain, leaves, m, lo, hi, known, q, p);
    } else {
      AlignedHalves(lo, q, p);
      if n <= p / 2 {
        SubproofReads(h, st, chain, leaves, m, lo, hi, known, 2 * q, p / 2);
      } else {
        SplitAtHalf(n, p);
        HalfBits(p);
        CeilLog2Double(n, p / 2);
        var mid := lo + p / 2;
        PopCountBound(hi - mid, p / 2);
        if m == n {
          SubtreeReads(h, st, chain, leaves, lo, hi, q, p);
          PopCountBelow(n, p);
          CeilLog2Double(p, p / 2);
        } else if m <= p / 2 {
          SubproofReadsComplete(h, st, chain, leaves, m, lo, mid, known, 2 * q, p / 2);
          SubtreeReads(h, st, chain, leaves, mid, hi, 2 * q + 1, p / 2);
        } else {
          SubproofReads(h, st, chain, leaves, m - p / 2, mid, hi, false, 2 * q + 1, p / 2);
          SubtreeReads(h, st, chain, leaves, lo, mid, 2 * q, p / 2);
          CeilLog2Mono(hi - mid, p / 2);
        }
      }
    }
  }

  /** A consistency proof up to `second` leaves reads at most `2 * ceil(log2(second)) + 1`
      records. */
  lemma ConsistencyReads(h: Hasher, st: State, chain: Text, leaves: seq<Digest>, first: nat, second: nat)
    requires KeepsTree(h, st, chain, leaves) && 0 < first <= second <= |leaves|
    ensures Consistency(h, st, chain, first, second).gets <= 2 * CeilLog2(second) + 1
  {
    var p := EnclosingPow2(second);
    SubproofReads(h, st, chain, leaves, first, 0, second, true, 0, p);
  }
}
