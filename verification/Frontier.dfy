/** The incremental frontier: the roots of the complete subtrees that cover the leaves so
    far, one per 1-bit of the size, and the complete-subtree nodes that each push emits. */
module Frontiers {
  import opened Bits
  import opened Merkle

  /** A persisted complete-subtree node: the root over leaves
      `[index * 2^level, (index + 1) * 2^level)`. */
  datatype Node = Node(level: nat, index: nat, hash: Digest)

  // ---- Rows of complete subtrees ----

  /** The next row up, without an odd last position. */
  function FullPairs(h: Hasher, row: seq<Digest>): (up: seq<Digest>)
    ensures 2 * |up| <= |row| <= 2 * |up| + 1
  {
    if |row| < 2 then [] else [h.node(row[0], row[1])] + FullPairs(h, row[2..])
  }

  /** The roots of all complete aligned subtrees of height `level`. */
  function Row(h: Hasher, leaves: seq<Digest>, level: nat): seq<Digest>
    decreases level
  {
    if level == 0 then leaves else Row(h, FullPairs(h, leaves), level - 1)
  }

  lemma {:induction false} PairUpIsFullPairs(h: Hasher, row: seq<Digest>)
    ensures |row| == 2 * |FullPairs(h, row)| ==> PairUp(h, row) == FullPairs(h, row)
    ensures |row| == 2 * |FullPairs(h, row)| + 1 ==> PairUp(h, row) == FullPairs(h, row) + [row[|row| - 1]]
  {
    if |row| >= 2 {
      PairUpIsFullPairs(h, row[2..]);
    }
  }

  lemma {:induction false} FullPairsSnoc(h: Hasher, row: seq<Digest>, c: Digest)
    ensures |row| == 2 * |FullPairs(h, row)| ==> FullPairs(h, row + [c]) == FullPairs(h, row)
    ensures |row| == 2 * |FullPairs(h, row)| + 1 ==>
      FullPairs(h, row + [c]) == FullPairs(h, row) + [h.node(row[|row| - 1], c)]
  {
    if |row| >= 2 {
      FullPairsSnoc(h, row[2..], c);
      assert (row + [c])[2..] == row[2..] + [c];
    }
  }

  lemma {:induction false} FullPairsSlice(h: Hasher, row: seq<Digest>, a: nat, b: nat)
    requires a <= b && 2 * b <= |row|
    ensures b <= |FullPairs(h, row)|
    ensures FullPairs(h, row)[a..b] == PairUp(h, row[2 * a..2 * b])
  {
    var up := PairUp(h, row);
    PairUpIsFullPairs(h, row);
    assert FullPairs(h, row)[a..b] == up[..b][a..];
    PairUpSplit(h, row, b);
    PairUpSplit(h, row[..2 * b], a);
    assert row[2 * a..2 * b] == row[..2 * b][2 * a..];
  }

  /** A row has exactly the subtrees that fit. */
  lemma {:induction false} RowLength(h: Hasher, leaves: seq<Digest>, level: nat, i: nat)
    ensures i < |Row(h, leaves, level)| <==> (i + 1) * Pow2(level) <= |leaves|
    decreases level
  {
    if level > 0 {
      RowLength(h, FullPairs(h, leaves), level - 1, i);
      Doubled(i + 1, Pow2(level - 1));
    }
  }

  /** Each entry of a row is the tree hash of its own leaf range. */
  lemma {:induction false} RowAt(h: Hasher, leaves: seq<Digest>, level: nat, i: nat)
    requires (i + 1) * Pow2(level) <= |leaves|
    ensures i < |Row(h, leaves, level)| && i * Pow2(level) <= (i + 1) * Pow2(level)
    ensures Row(h, leaves, level)[i] == Root(h, leaves[i * Pow2(level)..(i + 1) * Pow2(level)])
    decreases level
  {
    RowLength(h, leaves, level, i);
    RangeGrows(i, Pow2(level));
    if level == 0 {
      assert leaves[i..i + 1] == [leaves[i]];
    } else {
      RowAtUp(h, leaves, level, i);
    }
  }

  lemma {:induction false} RowAtUp(h: Hasher, leaves: seq<Digest>, level: nat, i: nat)
    requires level > 0 && (i + 1) * Pow2(level) <= |leaves| && i < |Row(h, leaves, level)|
    ensures i * Pow2(level) <= (i + 1) * Pow2(level)
    ensures Row(h, leaves, level)[i] == Root(h, leaves[i * Pow2(level)..(i + 1) * Pow2(level)])
    decreases level, 0
  {
    hide FullPairs, Root;
    var p := Pow2(level - 1);
    Doubled(i, p);
    Doubled(i + 1, p);
    RangeGrows(i, p);
    var up := FullPairs(h, leaves);
    RowAt(h, up, level - 1, i);
    FullPairsSlice(h, leaves, i * p, (i + 1) * p);
    PairUpKeepsRoot(h, leaves[2 * (i * p)..2 * ((i + 1) * p)]);
  }

  lemma RangeGrows(i: nat, p: nat)
    ensures 0 <= i * p <= (i + 1) * p == i * p + p
  {
  }

  // ---- Peaks ----

  /** A row with an odd last position, which `FullPairs` leaves out. */
  predicate OddRow(h: Hasher, row: seq<Digest>)
    ensures OddRow(h, row) <==> |row| % 2 == 1
  {
    |row| == 2 * |FullPairs(h, row)| + 1
  }

  /** The frontier of a leaf list: at each level the last root of an odd row, largest
      subtree first. */
  function Peaks(h: Hasher, row: seq<Digest>): seq<Digest>
    decreases |row|
  {
    if |row| == 0 then []
    else if OddRow(h, row) then Peaks(h, FullPairs(h, row)) + [row[|row| - 1]]
    else Peaks(h, FullPairs(h, row))
  }

  /** The number of peaks is the number of 1-bits of the size. */
  lemma {:induction false} PeakCount(h: Hasher, row: seq<Digest>)
    ensures |Peaks(h, row)| == PopCount(|row|)
    decreases |row|
  {
    if |row| > 0 {
      PeakCount(h, FullPairs(h, row));
    }
  }

  lemma PeaksSnoc(h: Hasher, row: seq<Digest>, c: Digest)
    ensures !OddRow(h, row) ==> Peaks(h, row + [c]) == Peaks(h, row) + [c]
    ensures OddRow(h, row) ==> Peaks(h, row) == Peaks(h, FullPairs(h, row)) + [row[|row| - 1]]
    ensures OddRow(h, row) ==>
      Peaks(h, row + [c]) == Peaks(h, FullPairs(h, row) + [h.node(row[|row| - 1], c)])
  {
    hide FullPairs;
    FullPairsSnoc(h, row, c);
  }

  /** Hashing the peaks from right to left onto `acc`. */
  function BagFrom(h: Hasher, peaks: seq<Digest>, acc: Digest): Digest
    decreases |peaks|
  {
    if peaks == [] then acc
    else BagFrom(h, peaks[..|peaks| - 1], h.node(peaks[|peaks| - 1], acc))
  }

  function Bag(h: Hasher, peaks: seq<Digest>): Digest {
    if peaks == [] then h.empty else BagFrom(h, peaks[..|peaks| - 1], peaks[|peaks| - 1])
  }

  lemma BagFromSnoc(h: Hasher, peaks: seq<Digest>, peak: Digest, acc: Digest)
    ensures BagFrom(h, peaks + [peak], acc) == BagFrom(h, peaks, h.node(peak, acc))
  {
    assert (peaks + [peak])[..|peaks|] == peaks;
  }

  lemma RootOfOne(h: Hasher, leaf: Digest)
    ensures Root(h, [leaf]) == leaf
  {
  }

  lemma {:induction false} BagFromIsRoot(h: Hasher, row: seq<Digest>, acc: Digest)
    ensures BagFrom(h, Peaks(h, row), acc) == Root(h, row + [acc])
    decreases |row|
  {
    hide FullPairs, Root, PairUp;
    if |row| == 0 {
      assert row + [acc] == [acc];
      RootOfOne(h, acc);
    } else {
      var up := FullPairs(h, row);
      FullPairsSnoc(h, row, acc);
      PairUpIsFullPairs(h, row + [acc]);
      PairUpKeepsRoot(h, row + [acc]);
      if OddRow(h, row) {
        BagFromIsRoot(h, up, h.node(row[|row| - 1], acc));
        BagFromSnoc(h, Peaks(h, up), row[|row| - 1], acc);
      } else {
        BagFromIsRoot(h, up, acc);
      }
    }
  }

  /** Bagging the peaks gives the tree hash, at every size. */
  lemma {:induction false} BagIsRoot(h: Hasher, leaves: seq<Digest>)
    ensures Bag(h, Peaks(h, leaves)) == Root(h, leaves)
    decreases |leaves|
  {
    if |leaves| > 0 {
      BagIsRootStep(h, leaves);
    }
  }

  lemma {:induction false} BagIsRootStep(h: Hasher, leaves: seq<Digest>)
    requires |leaves| > 0
    ensures Bag(h, Peaks(h, leaves)) == Root(h, leaves)
    decreases |leaves|, 0
  {
    hide FullPairs, Root, PairUp;
    var up := FullPairs(h, leaves);
    PairUpIsFullPairs(h, leaves);
    PairUpKeepsRoot(h, leaves);
    if OddRow(h, leaves) {
      var last := leaves[|leaves| - 1];
      BagFromIsRoot(h, up, last);
      assert (Peaks(h, up) + [last])[..|Peaks(h, up)|] == Peaks(h, up);
    } else {
      BagIsRoot(h, up);
    }
  }

  // ---- Emitted nodes ----

  /** The parents created when `c` joins `row`, the row of height `level`. */
  function Emitted(h: Hasher, row: seq<Digest>, c: Digest, level: nat): seq<Node>
    decreases |row|
  {
    if !OddRow(h, row) then []
    else
      var up := h.node(row[|row| - 1], c);
      [Node(level + 1, |FullPairs(h, row)|, up)] + Emitted(h, FullPairs(h, row), up, level + 1)
  }

  lemma {:induction false} EmittedCount(h: Hasher, row: seq<Digest>, c: Digest, level: nat)
    ensures |Emitted(h, row, c, level)| == TrailingZeros(|row| + 1)
    decreases |row|
  {
    if OddRow(h, row) {
      EmittedCount(h, FullPairs(h, row), h.node(row[|row| - 1], c), level + 1);
      assert (|row| + 1) / 2 == |FullPairs(h, row)| + 1;
    }
  }

  lemma {:induction false} EmittedAt(h: Hasher, row: seq<Digest>, c: Digest, level: nat, k: nat)
    requires k < |Emitted(h, row, c, level)|
    ensures var e := Emitted(h, row, c, level)[k];
      && e.level == level + k + 1
      && (e.index + 1) * Pow2(k + 1) == |row| + 1
      && e.index < |Row(h, row + [c], k + 1)|
      && e.hash == Row(h, row + [c], k + 1)[e.index]
    decreases k
  {
    var up := h.node(row[|row| - 1], c);
    FullPairsSnoc(h, row, c);
    if k == 0 {
      assert Row(h, row + [c], 1) == FullPairs(h, row + [c]) by {
        assert Row(h, FullPairs(h, row + [c]), 0) == FullPairs(h, row + [c]);
      }
      assert Pow2(1) == 2;
    } else {
      EmittedAt(h, FullPairs(h, row), up, level + 1, k - 1);
      Doubled(Emitted(h, row, c, level)[k].index + 1, Pow2(k));
    }
  }

  /** `(level, index)` names a complete subtree above the leaves whose last leaf is the
      last of the first `n`. */
  predicate EndsAt(level: nat, index: nat, n: nat) {
    level >= 1 && (index + 1) * Pow2(level) == n
  }

  predicate IsSubtree(level: nat, index: nat, n: nat) {
    level >= 1 && (index + 1) * Pow2(level) <= n
  }

  /** The tree hash of the leaf range of a node. */
  function RangeRoot(h: Hasher, leaves: seq<Digest>, level: nat, index: nat): Digest
    requires (index + 1) * Pow2(level) <= |leaves|
  {
    RangeGrows(index, Pow2(level));
    Root(h, leaves[index * Pow2(level)..(index + 1) * Pow2(level)])
  }

  /** A push emits one node per level from 1 to the trailing zeros of the new size, each
      ending at the new leaf and each the tree hash of its own range. */
  lemma EmittedIsExact(h: Hasher, leaves: seq<Digest>, leaf: Digest, k: nat)
    requires k < |Emitted(h, leaves, leaf, 0)|
    ensures var e := Emitted(h, leaves, leaf, 0)[k];
      && e.level == k + 1
      && EndsAt(e.level, e.index, |leaves| + 1)
      && e.hash == RangeRoot(h, leaves + [leaf], e.level, e.index)
  {
    EmittedAt(h, leaves, leaf, 0, k);
    RowAt(h, leaves + [leaf], k + 1, Emitted(h, leaves, leaf, 0)[k].index);
  }

  lemma {:induction false} TrailingZerosOfMultiple(q: nat, level: nat)
    requires q > 0
    ensures q * Pow2(level) > 0 && level <= TrailingZeros(q * Pow2(level))
  {
    if level > 0 {
      Doubled(q, Pow2(level - 1));
      TrailingZerosOfMultiple(q, level - 1);
    }
  }

  lemma SameMultiple(a: nat, b: nat, p: nat)
    requires a * p == b * p && p > 0
    ensures a == b
  {
    assert (a - b) * p == 0;
  }

  /** Every complete subtree that ends at the new leaf is emitted. */
  lemma EmittedIsComplete(h: Hasher, leaves: seq<Digest>, leaf: Digest, level: nat, index: nat)
    requires EndsAt(level, index, |leaves| + 1)
    ensures level - 1 < |Emitted(h, leaves, leaf, 0)|
    ensures Emitted(h, leaves, leaf, 0)[level - 1].index == index
  {
    TrailingZerosOfMultiple(index + 1, level);
    EmittedCount(h, leaves, leaf, 0);
    EmittedIsExact(h, leaves, leaf, level - 1);
    SameMultiple(index + 1, Emitted(h, leaves, leaf, 0)[level - 1].index + 1, Pow2(level));
  }

  /** All nodes emitted while pushing `leaves` one by one. */
  function AllEmitted(h: Hasher, leaves: seq<Digest>): seq<Node>
    decreases |leaves|
  {
    if leaves == [] then []
    else
      var n := |leaves| - 1;
      AllEmitted(h, leaves[..n]) + Emitted(h, leaves[..n], leaves[n], 0)
  }

  lemma RangeRootOfPrefix(h: Hasher, leaves: seq<Digest>, n: nat, level: nat, index: nat)
    requires n <= |leaves| && (index + 1) * Pow2(level) <= n
    ensures RangeRoot(h, leaves[..n], level, index) == RangeRoot(h, leaves, level, index)
  {
    RangeGrows(index, Pow2(level));
    var lo, hi := index * Pow2(level), (index + 1) * Pow2(level);
    assert leaves[..n][lo..hi] == leaves[lo..hi];
  }

  /** Over a whole run only complete subtrees are emitted, each with its tree hash. */
  lemma {:induction false} RunEmitsOnlyNodes(h: Hasher, leaves: seq<Digest>, k: nat)
    requires k < |AllEmitted(h, leaves)|
    ensures var e := AllEmitted(h, leaves)[k];
      IsSubtree(e.level, e.index, |leaves|) && e.hash == RangeRoot(h, leaves, e.level, e.index)
    decreases |leaves|
  {
    var n := |leaves| - 1;
    var before := AllEmitted(h, leaves[..n]);
    var e := AllEmitted(h, leaves)[k];
    if k < |before| {
      RunEmitsOnlyNodes(h, leaves[..n], k);
      RangeRootOfPrefix(h, leaves, n, e.level, e.index);
    } else {
      EmittedIsExact(h, leaves[..n], leaves[n], k - |before|);
      assert leaves[..n] + [leaves[n]] == leaves;
    }
  }

  /** Over a whole run every complete subtree is emitted. */
  lemma {:induction false} RunEmitsEveryNode(h: Hasher, leaves: seq<Digest>, level: nat, index: nat) returns (k: nat)
    requires IsSubtree(level, index, |leaves|)
    ensures k < |AllEmitted(h, leaves)|
    ensures AllEmitted(h, leaves)[k] == Node(level, index, RangeRoot(h, leaves, level, index))
    decreases |leaves|
  {
    var n := |leaves| - 1;
    assert leaves != [] by { RangeGrows(index, Pow2(level)); }
    if (index + 1) * Pow2(level) <= n {
      k := RunEmitsEveryNode(h, leaves[..n], level, index);
      RangeRootOfPrefix(h, leaves, n, level, index);
    } else {
      EmittedIsComplete(h, leaves[..n], leaves[n], level, index);
      EmittedIsExact(h, leaves[..n], leaves[n], level - 1);
      assert leaves[..n] + [leaves[n]] == leaves;
      k := |AllEmitted(h, leaves[..n])| + level - 1;
    }
  }

  /** Over a whole run no node is emitted twice. */
  lemma {:induction false} RunEmitsOnce(h: Hasher, leaves: seq<Digest>, j: nat, k: nat)
    requires j < k < |AllEmitted(h, leaves)|
    ensures var a, b := AllEmitted(h, leaves)[j], AllEmitted(h, leaves)[k];
      a.level != b.level || a.index != b.index
    decreases |leaves|
  {
    var n := |leaves| - 1;
    var before := AllEmitted(h, leaves[..n]);
    if k < |before| {
      RunEmitsOnce(h, leaves[..n], j, k);
    } else {
      EmittedIsExact(h, leaves[..n], leaves[n], k - |before|);
      if j < |before| {
        RunEmitsOnlyNodes(h, leaves[..n], j);
      } else {
        EmittedIsExact(h, leaves[..n], leaves[n], j - |before|);
      }
    }
  }

  // ---- The mutable frontier ----

  /** The first leaf below position `s` of the row of height `level`. */
  ghost function LeafOffset(s: nat, level: nat): nat {
    s * Pow2(level)
  }

  lemma StartAtZero(s: nat)
    ensures LeafOffset(s, 0) == s
  {
  }

  /** Taking an odd position's left neighbour in moves the offset back by one subtree, to
      the offset of the parent. */
  lemma LeftNeighbour(s: nat, level: nat)
    requires s % 2 == 1
    ensures LeafOffset(s, level) - Pow2(level) == LeafOffset(s / 2, level + 1)
    ensures Shr(LeafOffset(s / 2, level + 1), level + 1) == s / 2
  {
    ShrOfMultiple(s / 2, level + 1);
    Doubled(s / 2, Pow2(level));
    assert s * Pow2(level) == 2 * ((s / 2) * Pow2(level)) + Pow2(level) by {
      assert s == 2 * (s / 2) + 1;
    }
  }

  lemma EmittedStep(h: Hasher, row: seq<Digest>, c: Digest, level: nat, done: seq<Node>)
    requires OddRow(h, row)
    ensures var up := h.node(row[|row| - 1], c);
      done + Emitted(h, row, c, level)
      == (done + [Node(level + 1, |row| / 2, up)]) + Emitted(h, FullPairs(h, row), up, level + 1)
  {
  }

  class Frontier {
    var size: nat
    var peaks: seq<Digest>

    /** The frontier stands for exactly these leaves. */
    ghost predicate Represents(h: Hasher, leaves: seq<Digest>)
      reads this
    {
      size == |leaves| && peaks == Peaks(h, leaves)
    }

    constructor (size: nat, peaks: seq<Digest>)
      ensures this.size == size && this.peaks == peaks
    {
      this.size := size;
      this.peaks := peaks;
    }

    /** Folds one leaf in and returns the complete-subtree parents it created. */
    method PushEmit(h: Hasher, leaf: Digest, ghost leaves: seq<Digest>) returns (emitted: seq<Node>)
      requires Represents(h, leaves)
      modifies this
      ensures Represents(h, leaves + [leaf])
      ensures emitted == Emitted(h, leaves, leaf, 0)
    {
      hide FullPairs, Shr, Pow2, Peaks;
      emitted := [];
      var carry, carryLevel := leaf, 0;
      var carryStart, s := size, size;
      ghost var row := leaves;
      StartAtZero(s);
      while s % 2 == 1
        invariant s == |row| && peaks == Peaks(h, row)
        invariant carryStart == LeafOffset(s, carryLevel)
        invariant Peaks(h, row + [carry]) == Peaks(h, leaves + [leaf])
        invariant emitted + Emitted(h, row, carry, carryLevel) == Emitted(h, leaves, leaf, 0)
        invariant size == |leaves|
        decreases s
      {
        PeaksSnoc(h, row, carry);
        EmittedStep(h, row, carry, carryLevel, emitted);
        LeftNeighbour(s, carryLevel);
        var left := peaks[|peaks| - 1];
        peaks := peaks[..|peaks| - 1];
        carry := h.node(left, carry);
        carryStart := carryStart - Pow2(carryLevel);
        carryLevel := carryLevel + 1;
        var index := Shr(carryStart, carryLevel);
        emitted := emitted + [Node(carryLevel, index, carry)];
        row := FullPairs(h, row);
        s := s / 2;
      }
      PeaksSnoc(h, row, carry);
      assert emitted + [] == emitted;
      peaks := peaks + [carry];
      size := size + 1;
    }

    /** Digest at the current size: the peaks bagged from right to left. */
    method RootNow(h: Hasher, ghost leaves: seq<Digest>) returns (r: Digest)
      requires Represents(h, leaves)
      ensures r == Root(h, leaves)
    {
      BagIsRoot(h, leaves);
      if peaks == [] {
        return h.empty;
      }
      var i := |peaks| - 1;
      r := peaks[i];
      while i > 0
        invariant 0 <= i < |peaks|
        invariant BagFrom(h, peaks[..i], r) == Bag(h, peaks)
      {
        assert peaks[..i][..i - 1] == peaks[..i - 1];
        i := i - 1;
        r := h.node(peaks[i], r);
      }
    }
  }
}
