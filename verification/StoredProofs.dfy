/** Proofs assembled from persisted records: the same recursion as the pure provers, with
    each subtree root read from the store. */
module StoredProofs {
  import opened Bits
  import opened Merkle
  import opened Frontiers
  import opened Bytes
  import opened Outcomes
  import opened Store

  /** A value fetched from storage and the number of records read for it. */
  datatype Fetched<T> = Fetched(result: Result<T, StorageError>, gets: nat)

  // ---- The storage-backed recursion ----

  function ReadLeaf(st: State, chain: Text, lo: nat): Result<Digest, StorageError> {
    match GetEntry(st, chain, lo + 1)
    case None => Err(EntryMissing(lo + 1))
    case Some(rec) =>
      match rec.leafHash
      case None => Err(NoLeafHash(lo + 1))
      case Some(d) => Ok(d)
  }

  function ReadNode(st: State, chain: Text, level: nat, index: nat): Result<Digest, StorageError> {
    match GetNode(st, chain, level, index)
    case None => Err(NodeMissing(level, index))
    case Some(d) => Ok(d)
  }

  /** The root over leaves `[lo, hi)`. */
  function SubtreeRoot(h: Hasher, st: State, chain: Text, lo: nat, hi: nat): Fetched<Digest>
    requires lo < hi
    decreases hi - lo
  {
    var n := hi - lo;
    if n == 1 then Fetched(ReadLeaf(st, chain, lo), 1)
    else if IsPow2(n) && lo % n == 0 then
      Fetched(ReadNode(st, chain, TrailingZeros(n), Shr(lo, TrailingZeros(n))), 1)
    else
      var k := SplitPoint(n);
      var left := SubtreeRoot(h, st, chain, lo, lo + k);
      if left.result.Err? then left
      else
        var right := SubtreeRoot(h, st, chain, lo + k, hi);
        if right.result.Err? then Fetched(right.result, left.gets + right.gets)
        else Fetched(Ok(h.node(left.result.value, right.result.value)), left.gets + right.gets)
  }

  /** Extends a fetched path by one fetched root; an error stops the path. */
  function Push(path: Fetched<seq<Digest>>, root: Fetched<Digest>): Fetched<seq<Digest>> {
    if path.result.Err? then path
    else if root.result.Err? then Fetched(Err(root.result.error), path.gets + root.gets)
    else Fetched(Ok(path.result.value + [root.result.value]), path.gets + root.gets)
  }

  /** The audit path of leaf `index` within `[lo, hi)`. */
  function Incl(h: Hasher, st: State, chain: Text, lo: nat, hi: nat, index: nat): Fetched<seq<Digest>>
    requires lo <= index < hi
    decreases hi - lo
  {
    if hi - lo == 1 then Fetched(Ok([]), 0)
    else
      var mid := lo + SplitPoint(hi - lo);
      if index < mid then Push(Incl(h, st, chain, lo, mid, index), SubtreeRoot(h, st, chain, mid, hi))
      else Push(Incl(h, st, chain, mid, hi, index), SubtreeRoot(h, st, chain, lo, mid))
  }

  function Inclusion(h: Hasher, st: State, chain: Text, index: nat, size: nat): Fetched<seq<Digest>>
    requires index < size
  {
    Incl(h, st, chain, 0, size, index)
  }

  function StoredSubproof(h: Hasher, st: State, chain: Text, m: nat, lo: nat, hi: nat, known: bool): Fetched<seq<Digest>>
    requires lo < hi && 0 < m <= hi - lo
    decreases hi - lo
  {
    if m == hi - lo then
      if known then Fetched(Ok([]), 0)
      else Push(Fetched(Ok([]), 0), SubtreeRoot(h, st, chain, lo, hi))
    else
      var k := SplitPoint(hi - lo);
      if m <= k then
        Push(StoredSubproof(h, st, chain, m, lo, lo + k, known), SubtreeRoot(h, st, chain, lo + k, hi))
      else
        Push(StoredSubproof(h, st, chain, m - k, lo + k, hi, false), SubtreeRoot(h, st, chain, lo, lo + k))
  }

  function Consistency(h: Hasher, st: State, chain: Text, first: nat, second: nat): Fetched<seq<Digest>>
    requires first <= second
  {
    if first == 0 then Fetched(Ok([]), 0) else StoredSubproof(h, st, chain, first, 0, second, true)
  }

  // ---- What the store holds ----

  /** Entry `i + 1` carries leaf hash `leaves[i]`. */
  ghost predicate HoldsLeaves(st: State, chain: Text, leaves: seq<Digest>) {
    forall i :: 0 <= i < |leaves| ==> LeafIs(st, chain, i, leaves[i])
  }

  ghost predicate LeafIs(st: State, chain: Text, i: nat, leaf: Digest) {
    (chain, i + 1) in st.entries && st.entries[(chain, i + 1)].leafHash == Some(leaf)
  }

  /** Every complete subtree above the leaves is persisted with its tree hash. */
  ghost predicate HoldsNodes(h: Hasher, st: State, chain: Text, leaves: seq<Digest>) {
    forall level: nat, index: nat :: IsSubtree(level, index, |leaves|) ==>
      (chain, level, index) in st.nodes && st.nodes[(chain, level, index)] == RangeRoot(h, leaves, level, index)
  }

  ghost predicate KeepsTree(h: Hasher, st: State, chain: Text, leaves: seq<Digest>) {
    HoldsLeaves(st, chain, leaves) && HoldsNodes(h, st, chain, leaves)
  }

  // ---- Storage-backed equals pure ----

  lemma {:induction false} Pow2OfTrailing(n: nat)
    requires IsPow2(n)
    ensures n > 0 && Pow2(TrailingZeros(n)) == n && (n > 1 ==> TrailingZeros(n) >= 1)
  {
    IsPow2Trailing(n);
  }

  /** An aligned power-of-two range is one node. */
  lemma AlignedNode(lo: nat, n: nat)
    requires IsPow2(n) && n > 1 && lo % n == 0
    ensures var level, index := TrailingZeros(n), Shr(lo, TrailingZeros(n));
      level >= 1 && index * Pow2(level) == lo && (index + 1) * Pow2(level) == lo + n
  {
    Pow2OfTrailing(n);
    var q := lo / n;
    assert lo == q * n;
    ShrOfMultiple(q, TrailingZeros(n));
    RangeGrows(q, n);
  }

  lemma AlignedRead(h: Hasher, st: State, chain: Text, leaves: seq<Digest>, lo: nat, hi: nat)
    requires HoldsNodes(h, st, chain, leaves)
    requires lo < hi <= |leaves| && hi - lo > 1 && IsPow2(hi - lo) && lo % (hi - lo) == 0
    ensures ReadNode(st, chain, TrailingZeros(hi - lo), Shr(lo, TrailingZeros(hi - lo)))
         == Ok(Root(h, leaves[lo..hi]))
  {
    AlignedNode(lo, hi - lo);
    var level, index := TrailingZeros(hi - lo), Shr(lo, TrailingZeros(hi - lo));
    assert IsSubtree(level, index, |leaves|);
  }

  lemma RangeSplit(leaves: seq<Digest>, lo: nat, hi: nat, k: nat)
    requires lo <= lo + k <= hi <= |leaves|
    ensures leaves[lo..hi][..k] == leaves[lo..lo + k]
    ensures leaves[lo..hi][k..] == leaves[lo + k..hi]
  {
  }

  lemma RootSplit(h: Hasher, leaves: seq<Digest>, k: nat)
    requires |leaves| >= 2 && k == SplitPoint(|leaves|)
    ensures Root(h, leaves) == h.node(Root(h, leaves[..k]), Root(h, leaves[k..]))
  {
  }

  lemma SubtreeRootSplit(h: Hasher, st: State, chain: Text, lo: nat, hi: nat, k: nat, left: Digest, right: Digest)
    requires lo + 1 < hi && !(IsPow2(hi - lo) && lo % (hi - lo) == 0) && k == SplitPoint(hi - lo)
    requires SubtreeRoot(h, st, chain, lo, lo + k).result == Ok(left)
    requires SubtreeRoot(h, st, chain, lo + k, hi).result == Ok(right)
    ensures SubtreeRoot(h, st, chain, lo, hi).result == Ok(h.node(left, right))
    ensures SubtreeRoot(h, st, chain, lo, hi).gets
         == SubtreeRoot(h, st, chain, lo, lo + k).gets + SubtreeRoot(h, st, chain, lo + k, hi).gets
  {
  }

  /** A leaf, or an aligned power-of-two range, is one read. */
  lemma SubtreeRootDirect(h: Hasher, st: State, chain: Text, lo: nat, hi: nat)
    requires lo < hi && (hi - lo == 1 || (IsPow2(hi - lo) && lo % (hi - lo) == 0))
    ensures SubtreeRoot(h, st, chain, lo, hi).gets == 1
  {
  }

  /** No record is ever missing, and the root read is the tree hash of the range. */
  lemma {:induction false} SubtreeRootIsRoot(h: Hasher, st: State, chain: Text, leaves: seq<Digest>, lo: nat, hi: nat)
    requires KeepsTree(h, st, chain, leaves) && lo < hi <= |leaves|
    ensures SubtreeRoot(h, st, chain, lo, hi).result == Ok(Root(h, leaves[lo..hi]))
    decreases hi - lo
  {
    var n := hi - lo;
    if n == 1 {
      assert LeafIs(st, chain, lo, leaves[lo]);
      assert leaves[lo..hi] == [leaves[lo]];
    } else if IsPow2(n) && lo % n == 0 {
      AlignedRead(h, st, chain, leaves, lo, hi);
    } else {
      SubtreeRootOfSplit(h, st, chain, leaves, lo, hi);
    }
  }

  lemma {:induction false} SubtreeRootOfSplit(h: Hasher, st: State, chain: Text, leaves: seq<Digest>, lo: nat, hi: nat)
    requires KeepsTree(h, st, chain, leaves) && lo < hi <= |leaves|
    requires hi - lo > 1 && !(IsPow2(hi - lo) && lo % (hi - lo) == 0)
    ensures SubtreeRoot(h, st, chain, lo, hi).result == Ok(Root(h, leaves[lo..hi]))
    decreases hi - lo, 0
  {
    hide Root, SubtreeRoot, KeepsTree, SplitPoint;
    var k := SplitPoint(hi - lo);
    SubtreeRootIsRoot(h, st, chain, leaves, lo, lo + k);
    SubtreeRootIsRoot(h, st, chain, leaves, lo + k, hi);
    RangeSplit(leaves, lo, hi, k);
    RootSplit(h, leaves[lo..hi], k);
    SubtreeRootSplit(h, st, chain, lo, hi, k, Root(h, leaves[lo..lo + k]), Root(h, leaves[lo + k..hi]));
  }

  lemma {:induction false} InclIsInclusionProof(h: Hasher, st: State, chain: Text, leaves: seq<Digest>,
                                                lo: nat, hi: nat, index: nat)
    requires KeepsTree(h, st, chain, leaves) && lo <= index < hi <= |leaves|
    ensures Incl(h, st, chain, lo, hi, index).result == Ok(InclusionProof(h, leaves[lo..hi], index - lo))
    decreases hi - lo
  {
    hide Root, SubtreeRoot, KeepsTree, InclusionProof, SplitPoint;
    var range := leaves[lo..hi];
    if hi - lo == 1 {
      InclusionProofOfOne(h, range);
    } else {
      var k := SplitPoint(hi - lo);
      RangeSplit(leaves, lo, hi, k);
      InclusionProofAt(h, range, index - lo, k);
      if index < lo + k {
        InclIsInclusionProof(h, st, chain, leaves, lo, lo + k, index);
        SubtreeRootIsRoot(h, st, chain, leaves, lo + k, hi);
      } else {
        InclIsInclusionProof(h, st, chain, leaves, lo + k, hi, index);
        SubtreeRootIsRoot(h, st, chain, leaves, lo, lo + k);
        assert index - (lo + k) == index - lo - k;
      }
    }
  }

  lemma {:induction false} StoredSubproofIsSubproof(h: Hasher, st: State, chain: Text, leaves: seq<Digest>,
                                                    m: nat, lo: nat, hi: nat, known: bool)
    requires KeepsTree(h, st, chain, leaves) && lo < hi <= |leaves| && 0 < m <= hi - lo
    ensures StoredSubproof(h, st, chain, m, lo, hi, known).result == Ok(Subproof(h, m, leaves[lo..hi], known))
    decreases hi - lo
  {
    hide Root, SubtreeRoot, KeepsTree, Subproof, SplitPoint;
    var range := leaves[lo..hi];
    if m == hi - lo {
      SubtreeRootIsRoot(h, st, chain, leaves, lo, hi);
      SubproofWhole(h, range, known);
      assert [] + [Root(h, range)] == [Root(h, range)];
    } else {
      var k := SplitPoint(hi - lo);
      RangeSplit(leaves, lo, hi, k);
      SubproofAt(h, m, range, known, k);
      if m <= k {
        StoredSubproofIsSubproof(h, st, chain, leaves, m, lo, lo + k, known);
        SubtreeRootIsRoot(h, st, chain, leaves, lo + k, hi);
      } else {
        StoredSubproofIsSubproof(h, st, chain, leaves, m - k, lo + k, hi, false);
        SubtreeRootIsRoot(h, st, chain, leaves, lo, lo + k);
      }
    }
  }

  /** Storage-backed proofs are the pure ones for every size up to the number of leaves,
      past sizes included. */
  lemma StoredProofsArePure(h: Hasher, st: State, chain: Text, leaves: seq<Digest>, size: nat)
    requires KeepsTree(h, st, chain, leaves) && 0 < size <= |leaves|
    ensures forall index | 0 <= index < size ::
      Inclusion(h, st, chain, index, size).result == Ok(InclusionProof(h, leaves[..size], index))
    ensures forall first | 0 <= first <= size ::
      Consistency(h, st, chain, first, size).result == Ok(ConsistencyProof(h, leaves[..size], first))
  {
    assert leaves[0..size] == leaves[..size];
    forall index | 0 <= index < size
      ensures Inclusion(h, st, chain, index, size).result == Ok(InclusionProof(h, leaves[..size], index))
    {
      InclIsInclusionProof(h, st, chain, leaves, 0, size, index);
    }
    forall first | 0 <= first <= size
      ensures Consistency(h, st, chain, first, size).result == Ok(ConsistencyProof(h, leaves[..size], first))
    {
      if first > 0 {
        StoredSubproofIsSubproof(h, st, chain, leaves, first, 0, size, true);
      }
    }
  }
}
