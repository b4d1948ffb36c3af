/** The inclusion and consistency verifiers of the source, which walk a proof with
    shifts, xor, bit length and population count, and the theorem that each accepts
    exactly the proof that the recursive prover makes. */
module MerkleVerify {
  import opened Bits
  import opened Merkle
  import opened Outcomes

  // ---- The two folds over a proof ----

  /** Every step has its sibling on the left. */
  function BorderFold(h: Hasher, seed: Digest, proof: seq<Digest>): Digest
    decreases |proof|
  {
    if proof == [] then seed else BorderFold(h, h.node(proof[0], seed), proof[1..])
  }

  /** Bit `i` of `index` says on which side step `i` is. */
  function InnerFold(h: Hasher, seed: Digest, proof: seq<Digest>, index: nat): Digest
    decreases |proof|
  {
    if proof == [] then seed
    else
      var up := if index % 2 == 0 then h.node(seed, proof[0]) else h.node(proof[0], seed);
      InnerFold(h, up, proof[1..], index / 2)
  }

  /** As `InnerFold`, keeping only the steps with the sibling on the left. */
  function InnerRightFold(h: Hasher, seed: Digest, proof: seq<Digest>, index: nat): Digest
    decreases |proof|
  {
    if proof == [] then seed
    else InnerRightFold(h, if index % 2 == 0 then seed else h.node(proof[0], seed), proof[1..], index / 2)
  }

  method ChainBorderRight(h: Hasher, seed: Digest, proof: seq<Digest>) returns (r: Digest)
    ensures r == BorderFold(h, seed, proof)
  {
    r := seed;
    for i := 0 to |proof|
      invariant BorderFold(h, r, proof[i..]) == BorderFold(h, seed, proof)
    {
      assert proof[i..][1..] == proof[i + 1..];
      r := h.node(proof[i], r);
    }
  }

  method ChainInner(h: Hasher, seed: Digest, proof: seq<Digest>, index: nat) returns (r: Digest)
    ensures r == InnerFold(h, seed, proof, index)
  {
    r := seed;
    for i := 0 to |proof|
      invariant InnerFold(h, r, proof[i..], Shr(index, i)) == InnerFold(h, seed, proof, index)
    {
      assert proof[i..][1..] == proof[i + 1..];
      ShrStep(index, i);
      if Shr(index, i) % 2 == 0 {
        r := h.node(r, proof[i]);
      } else {
        r := h.node(proof[i], r);
      }
    }
  }

  method ChainInnerRight(h: Hasher, seed: Digest, proof: seq<Digest>, index: nat) returns (r: Digest)
    ensures r == InnerRightFold(h, seed, proof, index)
  {
    r := seed;
    for i := 0 to |proof|
      invariant InnerRightFold(h, r, proof[i..], Shr(index, i)) == InnerRightFold(h, seed, proof, index)
    {
      assert proof[i..][1..] == proof[i + 1..];
      ShrStep(index, i);
      if Shr(index, i) % 2 == 1 {
        r := h.node(proof[i], r);
      }
    }
  }

  // ---- Climbing level by level ----

  /** One level at a time from position `index` of a row whose last position is `last`:
      an even last position moves up unhashed, any other takes the next proof element. */
  function Climb(h: Hasher, node: Digest, index: nat, last: nat, proof: seq<Digest>): Option<Digest>
    requires index <= last
    decreases last
  {
    if last == 0 then
      if proof == [] then Some(node) else None
    else if index == last && index % 2 == 0 then Climb(h, node, index / 2, last / 2, proof)
    else if proof == [] then None
    else
      var up := if index % 2 == 0 then h.node(node, proof[0]) else h.node(proof[0], node);
      Climb(h, up, index / 2, last / 2, proof[1..])
  }

  /** As `Climb`, hashing only with siblings on the left. */
  function ClimbRight(h: Hasher, node: Digest, index: nat, last: nat, proof: seq<Digest>): Option<Digest>
    requires index <= last
    decreases last
  {
    if last == 0 then
      if proof == [] then Some(node) else None
    else if index == last && index % 2 == 0 then ClimbRight(h, node, index / 2, last / 2, proof)
    else if proof == [] then None
    else ClimbRight(h, if index % 2 == 0 then node else h.node(proof[0], node), index / 2, last / 2, proof[1..])
  }

  /** How many steps of a proof are taken before the two paths to the root meet. */
  function InnerLen(index: nat, last: nat): nat {
    BitLen(Xor(index, last))
  }

  function BorderLen(index: nat, last: nat): nat {
    PopCount(Shr(index, InnerLen(index, last)))
  }

  lemma {:induction false} LensStep(index: nat, last: nat)
    requires index <= last && last > 0
    ensures index < last ==> InnerLen(index, last) == 1 + InnerLen(index / 2, last / 2)
    ensures index < last ==> BorderLen(index, last) == BorderLen(index / 2, last / 2)
    ensures index == last ==> InnerLen(index, last) == 0 == InnerLen(index / 2, last / 2)
    ensures index == last ==> BorderLen(index, last) == index % 2 + BorderLen(index / 2, last / 2)
  {
    XorZero(index, last);
    XorZero(index / 2, last / 2);
    XorHalf(index, last);
  }

  /** The bit formulas of the source describe the climb: a proof of the right length is
      climbed by an inner fold and then a border fold, and no other proof is. */
  lemma {:induction false} ClimbIsFolds(h: Hasher, node: Digest, index: nat, last: nat, proof: seq<Digest>)
    requires index <= last
    ensures |proof| != InnerLen(index, last) + BorderLen(index, last) ==>
      Climb(h, node, index, last, proof) == None && ClimbRight(h, node, index, last, proof) == None
    ensures |proof| == InnerLen(index, last) + BorderLen(index, last) ==>
      var inner := InnerLen(index, last);
      && Climb(h, node, index, last, proof)
      == Some(BorderFold(h, InnerFold(h, node, proof[..inner], index), proof[inner..]))
      && ClimbRight(h, node, index, last, proof)
      == Some(BorderFold(h, InnerRightFold(h, node, proof[..inner], index), proof[inner..]))
    decreases last
  {
    hide InnerLen, BorderLen;
    if last == 0 {
      LensZero();
    } else {
      LensStep(index, last);
      var inner := InnerLen(index, last);
      if index == last && index % 2 == 0 {
        ClimbIsFolds(h, node, index / 2, last / 2, proof);
      } else if proof != [] {
        var rest := proof[1..];
        ClimbIsFolds(h, if index % 2 == 0 then h.node(node, proof[0]) else h.node(proof[0], node),
                     index / 2, last / 2, rest);
        ClimbIsFolds(h, if index % 2 == 0 then node else h.node(proof[0], node), index / 2, last / 2, rest);
        if index < last && |proof| >= inner {
          assert proof[..inner][1..] == rest[..inner - 1];
          assert proof[inner..] == rest[inner - 1..];
        }
      }
    }
  }

  lemma LensZero()
    ensures InnerLen(0, 0) == 0 && BorderLen(0, 0) == 0
  {
  }

  // ---- The inclusion verifier ----

  /** What the inclusion verifier computes: nothing for an index outside the tree,
      otherwise the climb from the leaf. */
  function InclusionRoot(h: Hasher, leaf: Digest, index: nat, size: nat, proof: seq<Digest>): Option<Digest> {
    if index >= size then None else Climb(h, leaf, index, size - 1, proof)
  }

  method RootFromInclusion(h: Hasher, leaf: Digest, index: nat, size: nat, proof: seq<Digest>)
    returns (r: Option<Digest>)
    ensures r == InclusionRoot(h, leaf, index, size, proof)
  {
    if index >= size {
      return None;
    }
    var inner := BitLen(Xor(index, size - 1));
    var border := PopCount(Shr(index, inner));
    ClimbIsFolds(h, leaf, index, size - 1, proof);
    if |proof| != inner + border {
      return None;
    }
    var res := leaf;
    var low, high := proof[..inner], proof[inner..];
    for i := 0 to |low|
      invariant InnerFold(h, res, low[i..], Shr(index, i)) == InnerFold(h, leaf, low, index)
    {
      assert low[i..][1..] == low[i + 1..];
      ShrStep(index, i);
      if Shr(index, i) % 2 == 0 {
        res := h.node(res, low[i]);
      } else {
        res := h.node(low[i], res);
      }
    }
    ghost var met := res;
    for i := 0 to |high|
      invariant BorderFold(h, res, high[i..]) == BorderFold(h, met, high)
    {
      assert high[i..][1..] == high[i + 1..];
      res := h.node(high[i], res);
    }
    return Some(res);
  }

  // ---- Which hash inputs are involved ----

  /** The pairs hashed when the root of `leaves` is computed. */
  ghost function TreePairs(h: Hasher, leaves: seq<Digest>): set<(Digest, Digest)>
    decreases |leaves|
  {
    if |leaves| <= 1 then {}
    else
      var k := SplitPoint(|leaves|);
      TreePairs(h, leaves[..k]) + TreePairs(h, leaves[k..]) + {(Root(h, leaves[..k]), Root(h, leaves[k..]))}
  }

  /** The pairs hashed when a proof is climbed. */
  ghost function ClimbPairs(h: Hasher, node: Digest, index: nat, last: nat, proof: seq<Digest>): set<(Digest, Digest)>
    requires index <= last
    decreases last
  {
    if last == 0 then {}
    else if index == last && index % 2 == 0 then ClimbPairs(h, node, index / 2, last / 2, proof)
    else if proof == [] then {}
    else
      var pair := if index % 2 == 0 then (node, proof[0]) else (proof[0], node);
      ClimbPairs(h, h.node(pair.0, pair.1), index / 2, last / 2, proof[1..]) + {pair}
  }

  /** No two different pairs of `pairs` hash alike. */
  ghost predicate CollisionFree(h: Hasher, pairs: set<(Digest, Digest)>) {
    forall p, q | p in pairs && q in pairs :: h.node(p.0, p.1) == h.node(q.0, q.1) ==> p == q
  }

  lemma {:induction false} TreePairsAbove(h: Hasher, leaves: seq<Digest>)
    ensures TreePairs(h, PairUp(h, leaves)) <= TreePairs(h, leaves)
    decreases |leaves|
  {
    if |leaves| <= 1 {
      assert PairUp(h, leaves) == leaves;
    } else if |leaves| == 2 {
      assert |PairUp(h, leaves)| == 1;
    } else {
      TreePairsAboveSplit(h, leaves);
    }
  }

  lemma {:induction false} TreePairsAboveSplit(h: Hasher, leaves: seq<Digest>)
    requires |leaves| >= 3
    ensures TreePairs(h, PairUp(h, leaves)) <= TreePairs(h, leaves)
    decreases |leaves|, 0
  {
    hide PairUp, SplitPoint, Root;
    var k, j := SplitOneUp(h, leaves);
    TreePairsAbove(h, leaves[..k]);
    TreePairsAbove(h, leaves[k..]);
  }

  /** Every pair of neighbours on the bottom row is hashed. */
  lemma {:induction false} BottomPairs(h: Hasher, leaves: seq<Digest>, q: nat)
    requires 2 * q + 1 < |leaves|
    ensures (leaves[2 * q], leaves[2 * q + 1]) in TreePairs(h, leaves)
    decreases |leaves|
  {
    if |leaves| == 2 {
      assert Root(h, leaves[..1]) == leaves[0] && Root(h, leaves[1..]) == leaves[1];
    } else {
      BottomPairsSplit(h, leaves, q);
    }
  }

  lemma {:induction false} BottomPairsSplit(h: Hasher, leaves: seq<Digest>, q: nat)
    requires |leaves| >= 3 && 2 * q + 1 < |leaves|
    ensures (leaves[2 * q], leaves[2 * q + 1]) in TreePairs(h, leaves)
    decreases |leaves|, 0
  {
    hide PairUp, SplitPoint, Root;
    var k, j := SplitOneUp(h, leaves);
    if q < j {
      BottomPairs(h, leaves[..k], q);
    } else {
      BottomPairs(h, leaves[k..], q - j);
    }
  }

  // ---- Inclusion: accepted means the prover's proof of the right leaf ----

  /** A parent on the row above is a hash of the two below it only if they are the two
      that the tree hashed. */
  lemma ParentForcesChildren(h: Hasher, leaves: seq<Digest>, q: nat, pair: (Digest, Digest),
                             pairs: set<(Digest, Digest)>)
    requires 2 * q + 1 < |leaves|
    requires TreePairs(h, leaves) <= pairs && pair in pairs && CollisionFree(h, pairs)
    ensures h.node(pair.0, pair.1) == PairUp(h, leaves)[q] <==> pair == (leaves[2 * q], leaves[2 * q + 1])
  {
    PairUpAt(h, leaves, q);
    BottomPairs(h, leaves, q);
  }

  /** The verifier reaches the root from `node` exactly when `node` is the leaf at
      `index` and the proof is its audit path, unless two of the hashed pairs collide. */
  lemma {:induction false} ClimbExact(h: Hasher, leaves: seq<Digest>, node: Digest, index: nat, proof: seq<Digest>,
                                      pairs: set<(Digest, Digest)>)
    requires index < |leaves|
    requires CollisionFree(h, pairs)
    requires TreePairs(h, leaves) + ClimbPairs(h, node, index, |leaves| - 1, proof) <= pairs
    ensures Climb(h, node, index, |leaves| - 1, proof) == Some(Root(h, leaves))
       <==> node == leaves[index] && proof == InclusionProof(h, leaves, index)
    decreases |leaves|
  {
    if |leaves| == 1 {
      InclusionProofOfOne(h, leaves);
    } else {
      ClimbExactStep(h, leaves, node, index, index / 2, proof, pairs);
    }
  }

  lemma {:induction false} ClimbExactStep(h: Hasher, leaves: seq<Digest>, node: Digest, index: nat, q: nat,
                                          proof: seq<Digest>, pairs: set<(Digest, Digest)>)
    requires index < |leaves| && |leaves| >= 2 && q == index / 2
    requires CollisionFree(h, pairs)
    requires TreePairs(h, leaves) + ClimbPairs(h, node, index, |leaves| - 1, proof) <= pairs
    ensures Climb(h, node, index, |leaves| - 1, proof) == Some(Root(h, leaves))
       <==> node == leaves[index] && proof == InclusionProof(h, leaves, index)
    decreases |leaves|, 0
  {
    hide PairUp, SplitPoint, Root, InclusionProof, TreePairs, CollisionFree;
    var up := PairUp(h, leaves);
    PairUpKeepsRoot(h, leaves);
    TreePairsAbove(h, leaves);
    InclusionProofStep(h, leaves, index, q);
    assert (|leaves| - 1) / 2 == |up| - 1;
    if index == |leaves| - 1 && index % 2 == 0 {
      PairUpAt(h, leaves, q);
      ClimbExact(h, up, node, q, proof, pairs);
    } else if proof != [] {
      var pair := if index % 2 == 0 then (node, proof[0]) else (proof[0], node);
      ParentForcesChildren(h, leaves, q, pair, pairs);
      ClimbExact(h, up, h.node(pair.0, pair.1), q, proof[1..], pairs);
      assert proof == [proof[0]] + proof[1..];
    }
  }

  /** Completeness needs no assumption on the hash. */
  lemma {:induction false} InclusionComplete(h: Hasher, leaves: seq<Digest>, index: nat)
    requires index < |leaves|
    ensures InclusionRoot(h, leaves[index], index, |leaves|, InclusionProof(h, leaves, index)) == Some(Root(h, leaves))
    decreases |leaves|
  {
    if |leaves| > 1 {
      InclusionCompleteStep(h, leaves, index, index / 2);
    }
  }

  lemma {:induction false} InclusionCompleteStep(h: Hasher, leaves: seq<Digest>, index: nat, q: nat)
    requires index < |leaves| && |leaves| >= 2 && q == index / 2
    ensures InclusionRoot(h, leaves[index], index, |leaves|, InclusionProof(h, leaves, index)) == Some(Root(h, leaves))
    decreases |leaves|, 0
  {
    hide PairUp, SplitPoint, Root, InclusionProof;
    var up := PairUp(h, leaves);
    PairUpKeepsRoot(h, leaves);
    InclusionProofStep(h, leaves, index, q);
    assert (|leaves| - 1) / 2 == |up| - 1;
    PairUpAt(h, leaves, q);
    InclusionComplete(h, up, q);
    var proof := InclusionProof(h, leaves, index);
    if Sibling(leaves, index, q) == [] {
      assert proof == InclusionProof(h, up, q);
    } else {
      assert proof[1..] == InclusionProof(h, up, q);
    }
  }

  /** The length of every audit path. */
  lemma InclusionProofLength(h: Hasher, leaves: seq<Digest>, index: nat)
    requires index < |leaves|
    ensures |InclusionProof(h, leaves, index)| == InnerLen(index, |leaves| - 1) + BorderLen(index, |leaves| - 1)
  {
    InclusionComplete(h, leaves, index);
    ClimbIsFolds(h, leaves[index], index, |leaves| - 1, InclusionProof(h, leaves, index));
  }

  /** Inclusion, both ways: against the root of `leaves` the verifier accepts a leaf and a
      proof exactly when the leaf is the one at `index` and the proof is the prover's. */
  lemma InclusionSound(h: Hasher, leaves: seq<Digest>, leaf: Digest, index: nat, proof: seq<Digest>)
    requires index < |leaves|
    requires CollisionFree(h, TreePairs(h, leaves) + ClimbPairs(h, leaf, index, |leaves| - 1, proof))
    ensures InclusionRoot(h, leaf, index, |leaves|, proof) == Some(Root(h, leaves))
       <==> leaf == leaves[index] && proof == InclusionProof(h, leaves, index)
  {
    ClimbExact(h, leaves, leaf, index, proof,
               TreePairs(h, leaves) + ClimbPairs(h, leaf, index, |leaves| - 1, proof));
  }
}
