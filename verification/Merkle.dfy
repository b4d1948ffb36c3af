/** The Merkle Tree Hash of section 2.1 of RFC 6962 and the proofs of sections
    2.1.1 and 2.1.2, as the source computes them: by splitting a leaf list at the
    largest power of two below its length. The hash function is a parameter, so
    every statement holds for whichever one is used.

    The proofs below all rest on one fact: hashing the leaves pairwise, and passing
    an odd last leaf up unchanged, gives a list half as long with the same root
    (`PairUpKeepsRoot`). That turns the top-down recursion into halving, which is
    what the bit arithmetic of the verifiers and of the frontier does. */
module Merkle {
  import opened Bits
  import Bytes

  /** A 32-byte hash value; nothing here looks inside it. */
  datatype Digest = Digest(bytes: Bytes.Text)

  /** The two hash operations of the tree: the digest of the empty tree, and the
      digest of an inner node over its two children. */
  datatype Hasher = Hasher(empty: Digest, node: (Digest, Digest) -> Digest)

  // ---- The split point ----

  /** Doubling `k` while it stays below `n` when doubled. */
  function DoubleWhileBelow(k: nat, n: nat): (r: nat)
    requires 0 < k < n
    ensures k <= r < n <= 2 * r
    decreases n - k
  {
    if 2 * k < n then DoubleWhileBelow(2 * k, n) else k
  }

  /** The largest power of two strictly below `n`. */
  function SplitPoint(n: nat): (k: nat)
    requires n >= 2
    ensures 0 < k < n <= 2 * k
  {
    DoubleWhileBelow(1, n)
  }

  lemma {:induction false} DoublingKeepsPow2(k: nat, n: nat)
    requires 0 < k < n && IsPow2(k)
    ensures IsPow2(DoubleWhileBelow(k, n))
    decreases n - k
  {
    if 2 * k < n {
      DoublingKeepsPow2(2 * k, n);
    }
  }

  lemma SplitPointIsPow2(n: nat)
    requires n >= 2
    ensures IsPow2(SplitPoint(n))
  {
    DoublingKeepsPow2(1, n);
  }

  /** Of two powers of two, the larger is at least twice the smaller. */
  lemma {:induction false} Pow2Gap(a: nat, b: nat)
    requires IsPow2(a) && IsPow2(b) && a < b
    ensures 2 * a <= b
  {
    if a > 1 {
      Pow2Gap(a / 2, b / 2);
    }
  }

  /** `SplitPoint(n)` is the one power of two in `[n/2, n)`. */
  lemma SplitPointUnique(n: nat, k: nat)
    requires n >= 2
    ensures IsPow2(k) && k < n <= 2 * k <==> k == SplitPoint(n)
  {
    SplitPointIsPow2(n);
    if IsPow2(k) && k < n <= 2 * k {
      if k < SplitPoint(n) {
        Pow2Gap(k, SplitPoint(n));
      } else if SplitPoint(n) < k {
        Pow2Gap(SplitPoint(n), k);
      }
    }
  }

  lemma {:induction false} DoublingScales(k: nat, n: nat, half: nat)
    requires 0 < k < half && n <= 2 * half <= n + 1
    ensures DoubleWhileBelow(2 * k, n) == 2 * DoubleWhileBelow(k, half)
    decreases n - k
  {
    if 2 * k < half {
      DoublingScales(2 * k, n, half);
    }
  }

  method LargestPow2Lt(n: nat) returns (k: nat)
    requires n >= 2
    ensures IsPow2(k) && k < n <= 2 * k
    ensures k == SplitPoint(n)
  {
    k := 1;
    while 2 * k < n
      invariant IsPow2(k) && k < n
      invariant DoubleWhileBelow(k, n) == SplitPoint(n)
    {
      k := 2 * k;
    }
  }

  // ---- Tree hash and proofs, top down ----

  function Root(h: Hasher, leaves: seq<Digest>): Digest
    decreases |leaves|
  {
    if |leaves| == 0 then h.empty
    else if |leaves| == 1 then leaves[0]
    else
      var k := SplitPoint(|leaves|);
      h.node(Root(h, leaves[..k]), Root(h, leaves[k..]))
  }

  /** The audit path of leaf `index`, bottom up. */
  function InclusionProof(h: Hasher, leaves: seq<Digest>, index: nat): seq<Digest>
    requires index < |leaves|
    decreases |leaves|
  {
    if |leaves| == 1 then []
    else
      var k := SplitPoint(|leaves|);
      if index < k then InclusionProof(h, leaves[..k], index) + [Root(h, leaves[k..])]
      else InclusionProof(h, leaves[k..], index - k) + [Root(h, leaves[..k])]
  }

  /** The consistency proof of the first `m` leaves; `known` says that the verifier
      already holds the root of the whole list. */
  function Subproof(h: Hasher, m: nat, leaves: seq<Digest>, known: bool): seq<Digest>
    requires 0 < m <= |leaves|
    decreases |leaves|
  {
    if m == |leaves| then
      if known then [] else [Root(h, leaves)]
    else
      var k := SplitPoint(|leaves|);
      if m <= k then Subproof(h, m, leaves[..k], known) + [Root(h, leaves[k..])]
      else Subproof(h, m - k, leaves[k..], false) + [Root(h, leaves[..k])]
  }

  function ConsistencyProof(h: Hasher, leaves: seq<Digest>, first: nat): seq<Digest>
    requires first <= |leaves|
  {
    if first == 0 then [] else Subproof(h, first, leaves, true)
  }

  /** One unfolding of each proof at a given split point. */
  lemma InclusionProofAt(h: Hasher, leaves: seq<Digest>, index: nat, k: nat)
    requires index < |leaves| && |leaves| >= 2 && k == SplitPoint(|leaves|)
    ensures index < k ==>
      InclusionProof(h, leaves, index) == InclusionProof(h, leaves[..k], index) + [Root(h, leaves[k..])]
    ensures k <= index ==>
      InclusionProof(h, leaves, index) == InclusionProof(h, leaves[k..], index - k) + [Root(h, leaves[..k])]
  {
  }

  lemma SubproofAt(h: Hasher, m: nat, leaves: seq<Digest>, known: bool, k: nat)
    requires 0 < m < |leaves| && k == SplitPoint(|leaves|)
    ensures m <= k ==>
      Subproof(h, m, leaves, known) == Subproof(h, m, leaves[..k], known) + [Root(h, leaves[k..])]
    ensures k < m ==>
      Subproof(h, m, leaves, known) == Subproof(h, m - k, leaves[k..], false) + [Root(h, leaves[..k])]
  {
  }

  // ---- One level up ----

  /** The parent of positions `2i` and `2i + 1`; an odd last leaf is its own parent. */
  function ParentAt(h: Hasher, leaves: seq<Digest>, i: nat): Digest
    requires 2 * i < |leaves|
  {
    if 2 * i + 1 < |leaves| then h.node(leaves[2 * i], leaves[2 * i + 1]) else leaves[2 * i]
  }

  function PairUp(h: Hasher, leaves: seq<Digest>): (up: seq<Digest>)
    ensures |leaves| <= 2 * |up| <= |leaves| + 1
  {
    if |leaves| <= 1 then leaves
    else [h.node(leaves[0], leaves[1])] + PairUp(h, leaves[2..])
  }

  lemma {:induction false} PairUpAt(h: Hasher, leaves: seq<Digest>, i: nat)
    requires 2 * i < |leaves|
    ensures PairUp(h, leaves)[i] == ParentAt(h, leaves, i)
  {
    if i > 0 {
      PairUpAt(h, leaves[2..], i - 1);
    }
  }

  /** Pairing up commutes with cutting at an even position. */
  lemma {:induction false} PairUpSplit(h: Hasher, leaves: seq<Digest>, j: nat)
    requires 2 * j <= |leaves|
    ensures PairUp(h, leaves[..2 * j]) == PairUp(h, leaves)[..j]
    ensures PairUp(h, leaves[2 * j..]) == PairUp(h, leaves)[j..]
  {
    if j == 0 {
      assert leaves[0..] == leaves;
    } else {
      PairUpSplit(h, leaves[2..], j - 1);
      assert leaves[..2 * j][2..] == leaves[2..][..2 * (j - 1)];
      assert leaves[2..][2 * (j - 1)..] == leaves[2 * j..];
    }
  }

  lemma {:induction false} PairUpKeepsRoot(h: Hasher, leaves: seq<Digest>)
    ensures Root(h, PairUp(h, leaves)) == Root(h, leaves)
    decreases |leaves|
  {
    if |leaves| == 2 {
      assert Root(h, leaves[..1]) == leaves[0] && Root(h, leaves[1..]) == leaves[1];
    } else if |leaves| > 2 {
      var j := SplitPoint(|PairUp(h, leaves)|);
      DoublingScales(1, |leaves|, |PairUp(h, leaves)|);
      PairUpSplit(h, leaves, j);
      PairUpKeepsRoot(h, leaves[..2 * j]);
      PairUpKeepsRoot(h, leaves[2 * j..]);
    }
  }

  /** How the split of a list sits above the split of the list one level down. */
  lemma SplitOneUp(h: Hasher, leaves: seq<Digest>) returns (k: nat, j: nat)
    requires |leaves| >= 3
    ensures k == 2 * j && k == SplitPoint(|leaves|)
    ensures |PairUp(h, leaves)| >= 2 && j == SplitPoint(|PairUp(h, leaves)|)
    ensures PairUp(h, leaves)[..j] == PairUp(h, leaves[..k])
    ensures PairUp(h, leaves)[j..] == PairUp(h, leaves[k..])
    ensures Root(h, PairUp(h, leaves)[..j]) == Root(h, leaves[..k])
    ensures Root(h, PairUp(h, leaves)[j..]) == Root(h, leaves[k..])
  {
    j := SplitPoint(|PairUp(h, leaves)|);
    k := 2 * j;
    DoublingScales(1, |leaves|, |PairUp(h, leaves)|);
    PairUpSplit(h, leaves, j);
    PairUpKeepsRoot(h, leaves[..k]);
    PairUpKeepsRoot(h, leaves[k..]);
  }

  // ---- Audit paths, one level up ----

  /** `q` is the position above `index`. */
  predicate Above(q: nat, index: nat) {
    2 * q <= index <= 2 * q + 1
  }

  /** The bottom of the audit path of leaf `index`: its sibling, unless it is an odd
      last leaf, which has none. */
  function Sibling(leaves: seq<Digest>, index: nat, q: nat): seq<Digest>
    requires index < |leaves| && Above(q, index)
  {
    if index == 2 * q + 1 then [leaves[index - 1]]
    else if index + 1 < |leaves| then [leaves[index + 1]]
    else []
  }

  lemma SiblingInLeft(leaves: seq<Digest>, index: nat, q: nat, k: nat, j: nat)
    requires Above(q, index) && index < k <= |leaves| && k == 2 * j
    ensures Sibling(leaves[..k], index, q) == Sibling(leaves, index, q)
  {
  }

  lemma SiblingInRight(leaves: seq<Digest>, index: nat, q: nat, k: nat, j: nat)
    requires Above(q, index) && k <= index < |leaves| && k == 2 * j
    ensures j <= q && Sibling(leaves[k..], index - k, q - j) == Sibling(leaves, index, q)
  {
  }

  /** Two lists split at `k` and `j` with the same roots on both sides have audit paths
      that differ by `prefix` whenever the paths in the halves do. */
  lemma InclusionProofLift(h: Hasher, leaves: seq<Digest>, up: seq<Digest>, index: nat, q: nat,
                           k: nat, j: nat, prefix: seq<Digest>)
    requires |leaves| >= 2 && |up| >= 2 && k == SplitPoint(|leaves|) && j == SplitPoint(|up|)
    requires index < |leaves| && q < |up| && (index < k <==> q < j)
    requires Root(h, up[..j]) == Root(h, leaves[..k]) && Root(h, up[j..]) == Root(h, leaves[k..])
    requires index < k ==>
      InclusionProof(h, leaves[..k], index) == prefix + InclusionProof(h, up[..j], q)
    requires k <= index ==>
      InclusionProof(h, leaves[k..], index - k) == prefix + InclusionProof(h, up[j..], q - j)
    ensures InclusionProof(h, leaves, index) == prefix + InclusionProof(h, up, q)
  {
  }

  lemma InclusionProofOfTwo(h: Hasher, leaves: seq<Digest>, index: nat)
    requires |leaves| == 2 && index < 2
    ensures InclusionProof(h, leaves, index) == Sibling(leaves, index, 0)
    ensures |PairUp(h, leaves)| == 1
  {
    assert Root(h, leaves[..1]) == leaves[0] && Root(h, leaves[1..]) == leaves[1];
  }

  lemma InclusionProofOfOne(h: Hasher, leaf: seq<Digest>)
    requires |leaf| == 1
    ensures InclusionProof(h, leaf, 0) == [] && PairUp(h, leaf) == leaf
  {
  }

  /** An audit path is the sibling, then the audit path of the parent one level up. */
  lemma {:induction false} InclusionProofStep(h: Hasher, leaves: seq<Digest>, index: nat, q: nat)
    requires index < |leaves| && |leaves| >= 2 && Above(q, index)
    ensures InclusionProof(h, leaves, index) == Sibling(leaves, index, q) + InclusionProof(h, PairUp(h, leaves), q)
    decreases |leaves|, 0
  {
    hide InclusionProof, Root, PairUp, SplitPoint, Sibling;
    if |leaves| == 2 {
      InclusionProofOfTwo(h, leaves, index);
      InclusionProofOfOne(h, PairUp(h, leaves));
    } else {
      var k, j := SplitOneUp(h, leaves);
      if index < k {
        SiblingInLeft(leaves, index, q, k, j);
        InclusionProofStep(h, leaves[..k], index, q);
      } else {
        SiblingInRight(leaves, index, q, k, j);
        InclusionProofStepOrLeaf(h, leaves[k..], index - k, q - j);
      }
      InclusionProofLift(h, leaves, PairUp(h, leaves), index, q, k, j, Sibling(leaves, index, q));
    }
  }

  lemma {:induction false} InclusionProofStepOrLeaf(h: Hasher, leaves: seq<Digest>, index: nat, q: nat)
    requires index < |leaves| && Above(q, index)
    ensures InclusionProof(h, leaves, index) == Sibling(leaves, index, q) + InclusionProof(h, PairUp(h, leaves), q)
    decreases |leaves|, 1
  {
    if |leaves| == 1 {
      InclusionProofOfOne(h, leaves);
    } else {
      InclusionProofStep(h, leaves, index, q);
    }
  }

  // ---- Consistency proofs, one level up ----

  lemma SubproofLift(h: Hasher, m: nat, a: nat, leaves: seq<Digest>, up: seq<Digest>, known: bool, k: nat, j: nat)
    requires 0 < m < |leaves| && 0 < a < |up| && k == SplitPoint(|leaves|) && j == SplitPoint(|up|)
    requires m <= k <==> a <= j
    requires Root(h, up[..j]) == Root(h, leaves[..k]) && Root(h, up[j..]) == Root(h, leaves[k..])
    requires m <= k ==> Subproof(h, m, leaves[..k], known) == Subproof(h, a, up[..j], known)
    requires k < m ==> Subproof(h, m - k, leaves[k..], false) == Subproof(h, a - j, up[j..], false)
    ensures Subproof(h, m, leaves, known) == Subproof(h, a, up, known)
  {
  }

  lemma SubproofWhole(h: Hasher, leaves: seq<Digest>, known: bool)
    requires 0 < |leaves|
    ensures Subproof(h, |leaves|, leaves, known) == if known then [] else [Root(h, leaves)]
  {
  }

  /** An even prefix is a prefix one level up, and its proof is the same. */
  lemma {:induction false} SubproofEven(h: Hasher, m: nat, a: nat, leaves: seq<Digest>, known: bool)
    requires 0 < m <= |leaves| && m == 2 * a
    ensures Subproof(h, m, leaves, known) == Subproof(h, a, PairUp(h, leaves), known)
    decreases |leaves|
  {
    hide Subproof, Root, PairUp, SplitPoint;
    if m == |leaves| {
      PairUpKeepsRoot(h, leaves);
      SubproofWhole(h, leaves, known);
      SubproofWhole(h, PairUp(h, leaves), known);
    } else {
      var k, j := SplitOneUp(h, leaves);
      if m <= k {
        SubproofEven(h, m, a, leaves[..k], known);
      } else {
        SubproofEven(h, m - k, a - j, leaves[k..], false);
      }
      SubproofLift(h, m, a, leaves, PairUp(h, leaves), known, k, j);
    }
  }

  /** What a consistency proof adds below the audit path of the prefix's last leaf: the
      leaf itself, unless it is the whole prefix and its root is known. */
  function Seed(leaf: Digest, alone: bool): seq<Digest> {
    if alone then [] else [leaf]
  }

  lemma SubproofOfTwo(h: Hasher, leaves: seq<Digest>, known: bool)
    requires |leaves| == 2
    ensures Subproof(h, 1, leaves, known) == Seed(leaves[0], known) + InclusionProof(h, leaves, 0)
  {
    assert Root(h, leaves[..1]) == leaves[0];
    assert Subproof(h, 1, leaves[..1], known) == Seed(leaves[0], known);
  }

  /** The proof of an odd proper prefix is its last leaf and that leaf's audit path. */
  lemma {:induction false} SubproofOdd(h: Hasher, a: nat, leaves: seq<Digest>, index: nat, known: bool)
    requires index == 2 * a && index + 1 < |leaves|
    ensures Subproof(h, index + 1, leaves, known)
         == Seed(leaves[index], known && index == 0) + InclusionProof(h, leaves, index)
    decreases |leaves|
  {
    hide Subproof, InclusionProof, Root, PairUp, SplitPoint;
    if |leaves| == 2 {
      SubproofOfTwo(h, leaves, known);
    } else {
      var k, j := SplitOneUp(h, leaves);
      SubproofAt(h, index + 1, leaves, known, k);
      InclusionProofAt(h, leaves, index, k);
      if index < k {
        SubproofOdd(h, a, leaves[..k], index, known);
      } else {
        SubproofOdd(h, a - j, leaves[k..], index - k, false);
      }
    }
  }
}
