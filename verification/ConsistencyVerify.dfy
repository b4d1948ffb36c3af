/** The consistency verifier of the source and the theorem that, against the root of a
    known tree, it accepts exactly the prover's proof for exactly the root of the prefix. */
module ConsistencyVerify {
  import opened Bits
  import opened Merkle
  import opened Outcomes
  import opened MerkleVerify

  /** The verifier reads the first proof element before it checks the length, so an empty
      proof of a prefix whose size is no power of two is an index out of range. */
  datatype Verdict = Accepted | Rejected | Panicked

  function Judge(b: bool): Verdict {
    if b then Accepted else Rejected
  }

  /** Where the walk starts: from the prefix's own root when the prefix is one complete
      subtree, from the first proof element otherwise. */
  function Start(first: nat, proof: seq<Digest>, root1: Digest): Option<(Digest, seq<Digest>)>
    requires first > 0
  {
    if first == Pow2(TrailingZeros(first)) then Some((root1, proof))
    else if proof == [] then None
    else Some((proof[0], proof[1..]))
  }

  /** What the consistency verifier decides. Both roots are climbed to from the last
      complete subtree of the prefix, at the level of its trailing zeros. */
  function ConsistencyVerdict(h: Hasher, first: nat, second: nat, proof: seq<Digest>, root1: Digest, root2: Digest): Verdict {
    if first > second then Rejected
    else if first == second then Judge(proof == [] && root1 == root2)
    else if first == 0 then Judge(proof == [])
    else
      match Start(first, proof, root1)
      case None => Panicked
      case Some((seed, rest)) =>
        ShrMono(first - 1, second - 1, TrailingZeros(first));
        var mask, last := Shr(first - 1, TrailingZeros(first)), Shr(second - 1, TrailingZeros(first));
        Judge(ClimbRight(h, seed, mask, last, rest) == Some(root1) && Climb(h, seed, mask, last, rest) == Some(root2))
  }

  lemma {:induction false} ShrMono(a: nat, b: nat, i: nat)
    requires a <= b
    ensures Shr(a, i) <= Shr(b, i)
    decreases i
  {
    if i > 0 {
      ShrMono(a / 2, b / 2, i - 1);
    }
  }

  /** Below the trailing zeros of `first`, `first - 1` is all ones, so the two indices
      differ above that level and shifting both takes that many bits off their xor. */
  lemma {:induction false} ShiftedLens(index: nat, last: nat, shift: nat)
    requires index < last && shift == TrailingZeros(index + 1)
    ensures Shr(index, shift) <= Shr(last, shift)
    ensures InnerLen(index, last) == shift + InnerLen(Shr(index, shift), Shr(last, shift))
    ensures BorderLen(index, last) == BorderLen(Shr(index, shift), Shr(last, shift))
    decreases shift
  {
    hide InnerLen, BorderLen;
    if index % 2 == 1 {
      LensStep(index, last);
      assert (index + 1) / 2 == index / 2 + 1 && index / 2 < last / 2;
      ShiftedLens(index / 2, last / 2, shift - 1);
    }
  }

  method VerifyConsistency(h: Hasher, first: nat, second: nat, proof: seq<Digest>, root1: Digest, root2: Digest)
    returns (verdict: Verdict)
    ensures verdict == ConsistencyVerdict(h, first, second, proof, root1, root2)
    ensures first > second ==> verdict == Rejected
    ensures first == second ==> (verdict == Accepted <==> proof == [] && root1 == root2)
    ensures 0 == first < second ==> (verdict == Accepted <==> proof == [])
  {
    if first > second {
      return Rejected;
    }
    if first == second {
      return Judge(proof == [] && root1 == root2);
    }
    if first == 0 {
      return Judge(proof == []);
    }
    var inner := BitLen(Xor(first - 1, second - 1));
    var border := PopCount(Shr(first - 1, inner));
    var shift := TrailingZeros(first);
    ShiftedLens(first - 1, second - 1, shift);
    inner := inner - shift;
    var seed, start := root1, 0;
    if first != Pow2(shift) {
      if proof == [] {
        return Panicked;
      }
      seed, start := proof[0], 1;
    }
    var mask := Shr(first - 1, shift);
    ClimbIsFolds(h, seed, mask, Shr(second - 1, shift), proof[start..]);
    if |proof| != start + inner + border {
      return Rejected;
    }
    var rest := proof[start..];
    var right := ChainInnerRight(h, seed, rest[..inner], mask);
    var hash1 := ChainBorderRight(h, right, rest[inner..]);
    var both := ChainInner(h, seed, rest[..inner], mask);
    var hash2 := ChainBorderRight(h, both, rest[inner..]);
    return Judge(hash1 == root1 && hash2 == root2);
  }

  // ---- One level up ----

  /** An even prefix is judged as half the prefix of the row above. */
  lemma VerdictEven(h: Hasher, first: nat, second: nat, above: nat, proof: seq<Digest>, root1: Digest, root2: Digest)
    requires 0 < first < second && first % 2 == 0 && second <= 2 * above <= second + 1
    ensures ConsistencyVerdict(h, first, second, proof, root1, root2)
         == ConsistencyVerdict(h, first / 2, above, proof, root1, root2)
  {
    assert (first - 1) / 2 == first / 2 - 1;
    assert (second - 1) / 2 == above - 1;
  }

  /** The pairs hashed on the way to the second root. */
  ghost function VerdictPairs(h: Hasher, first: nat, second: nat, proof: seq<Digest>, root1: Digest): set<(Digest, Digest)>
    requires 0 < first <= second
  {
    if first == second then {}
    else
      match Start(first, proof, root1)
      case None => {}
      case Some((seed, rest)) =>
        ShrMono(first - 1, second - 1, TrailingZeros(first));
        ClimbPairs(h, seed, Shr(first - 1, TrailingZeros(first)), Shr(second - 1, TrailingZeros(first)), rest)
  }

  lemma VerdictPairsEven(h: Hasher, first: nat, second: nat, above: nat, proof: seq<Digest>, root1: Digest)
    requires 0 < first < second && first % 2 == 0 && second <= 2 * above <= second + 1
    ensures VerdictPairs(h, first, second, proof, root1) == VerdictPairs(h, first / 2, above, proof, root1)
  {
    assert (first - 1) / 2 == first / 2 - 1;
    assert (second - 1) / 2 == above - 1;
  }

  lemma PairUpSnoc(h: Hasher, leaves: seq<Digest>, index: nat, q: nat, acc: Digest)
    requires index < |leaves| && Above(q, index)
    ensures PairUp(h, leaves[..index] + [acc])
         == PairUp(h, leaves)[..q] + [if index == 2 * q then acc else h.node(leaves[index - 1], acc)]
  {
    var cut := leaves[..index] + [acc];
    PairUpSplit(h, leaves, q);
    PairUpSplit(h, cut, q);
    assert cut[..2 * q] == leaves[..2 * q];
    assert cut[2 * q..] == if index == 2 * q then [acc] else [leaves[index - 1], acc];
    assert PairUp(h, cut) == PairUp(h, cut)[..q] + PairUp(h, cut)[q..];
  }

  /** Climbing the audit path of leaf `index` with left siblings only gives the root of the
      tree that ends at that leaf, whatever the leaf is. */
  lemma {:induction false} ClimbRightIsPrefixRoot(h: Hasher, leaves: seq<Digest>, index: nat, acc: Digest)
    requires index < |leaves|
    ensures ClimbRight(h, acc, index, |leaves| - 1, InclusionProof(h, leaves, index))
         == Some(Root(h, leaves[..index] + [acc]))
    decreases |leaves|
  {
    if |leaves| > 1 {
      ClimbRightStep(h, leaves, index, index / 2, acc);
    }
  }

  lemma {:induction false} ClimbRightStep(h: Hasher, leaves: seq<Digest>, index: nat, q: nat, acc: Digest)
    requires index < |leaves| && |leaves| >= 2 && q == index / 2
    ensures ClimbRight(h, acc, index, |leaves| - 1, InclusionProof(h, leaves, index))
         == Some(Root(h, leaves[..index] + [acc]))
    decreases |leaves|, 0
  {
    hide PairUp, SplitPoint, Root, InclusionProof;
    var up := PairUp(h, leaves);
    var next := if index == 2 * q then acc else h.node(leaves[index - 1], acc);
    PairUpSnoc(h, leaves, index, q, acc);
    PairUpKeepsRoot(h, leaves[..index] + [acc]);
    ClimbRightIsPrefixRoot(h, up, q, next);
    InclusionProofStep(h, leaves, index, q);
    assert (|leaves| - 1) / 2 == |up| - 1;
    var proof := InclusionProof(h, leaves, index);
    if Sibling(leaves, index, q) == [] {
      assert proof == InclusionProof(h, up, q);
    } else {
      assert proof[1..] == InclusionProof(h, up, q);
    }
  }

  // ---- Consistency: accepted means the prover's proof of the prefix's root ----

  /** The verifier fails outright on exactly the empty proofs of prefixes that need one. */
  lemma PanicsExactly(h: Hasher, first: nat, second: nat, proof: seq<Digest>, root1: Digest, root2: Digest)
    ensures ConsistencyVerdict(h, first, second, proof, root1, root2) == Panicked
       <==> 0 < first < second && !IsPow2(first) && proof == []
  {
    if first > 0 {
      IsPow2Trailing(first);
    }
  }

  /** Completeness needs no assumption on the hash. */
  lemma {:induction false} ConsistencyComplete(h: Hasher, leaves: seq<Digest>, first: nat)
    requires 0 < first <= |leaves|
    ensures ConsistencyVerdict(h, first, |leaves|, ConsistencyProof(h, leaves, first),
                               Root(h, leaves[..first]), Root(h, leaves)) == Accepted
    decreases |leaves|
  {
    hide PairUp, Root, ConsistencyProof, ConsistencyVerdict;
    if first == |leaves| {
      ConsistencyExactWhole(h, leaves, [], Root(h, leaves[..|leaves|]));
      WholeProof(h, leaves);
    } else if first % 2 == 0 {
      PrefixEven(h, leaves, first);
      VerdictEven(h, first, |leaves|, |PairUp(h, leaves)|, ConsistencyProof(h, leaves, first),
                  Root(h, leaves[..first]), Root(h, leaves));
      ConsistencyComplete(h, PairUp(h, leaves), first / 2);
    } else {
      ConsistencyCompleteOdd(h, leaves, first - 1);
    }
  }

  lemma WholeProof(h: Hasher, leaves: seq<Digest>)
    requires leaves != []
    ensures ConsistencyProof(h, leaves, |leaves|) == []
  {
  }

  /** An even prefix and its proof, seen from the row above. */
  lemma PrefixEven(h: Hasher, leaves: seq<Digest>, first: nat)
    requires 0 < first < |leaves| && first % 2 == 0
    ensures 0 < first / 2 < |PairUp(h, leaves)| < |leaves|
    ensures Root(h, PairUp(h, leaves)) == Root(h, leaves)
    ensures Root(h, PairUp(h, leaves)[..first / 2]) == Root(h, leaves[..first])
    ensures ConsistencyProof(h, PairUp(h, leaves), first / 2) == ConsistencyProof(h, leaves, first)
  {
    hide PairUp, Root, Subproof;
    PairUpKeepsRoot(h, leaves);
    SubproofEven(h, first, first / 2, leaves, true);
    PairUpSplit(h, leaves, first / 2);
    PairUpKeepsRoot(h, leaves[..first]);
  }

  /** An odd proper prefix: its proof is its last leaf, unless that leaf is all of it, and
      the leaf's audit path; its root is the right-hand climb from that leaf. */
  lemma PrefixOdd(h: Hasher, leaves: seq<Digest>, index: nat)
    requires index + 1 < |leaves| && index % 2 == 0
    ensures ConsistencyProof(h, leaves, index + 1)
         == (if index == 0 then [] else [leaves[index]]) + InclusionProof(h, leaves, index)
    ensures ClimbRight(h, leaves[index], index, |leaves| - 1, InclusionProof(h, leaves, index))
         == Some(Root(h, leaves[..index + 1]))
    ensures index == 0 ==> Root(h, leaves[..1]) == leaves[0]
  {
    hide PairUp, InclusionProof, Subproof, Climb, ClimbRight;
    SubproofOdd(h, index / 2, leaves, index, true);
    ClimbRightIsPrefixRoot(h, leaves, index, leaves[index]);
    assert leaves[..index] + [leaves[index]] == leaves[..index + 1];
  }

  lemma ConsistencyCompleteOdd(h: Hasher, leaves: seq<Digest>, index: nat)
    requires index + 1 < |leaves| && index % 2 == 0
    ensures ConsistencyVerdict(h, index + 1, |leaves|, ConsistencyProof(h, leaves, index + 1),
                               Root(h, leaves[..index + 1]), Root(h, leaves)) == Accepted
  {
    hide PairUp, Root, InclusionProof, Subproof, Climb, ClimbRight;
    PrefixOdd(h, leaves, index);
    InclusionComplete(h, leaves, index);
    var proof := ConsistencyProof(h, leaves, index + 1);
    if index == 0 {
      assert proof == InclusionProof(h, leaves, index);
    } else {
      assert proof[1..] == InclusionProof(h, leaves, index);
    }
  }

  /** Consistency, both ways: against the root of `leaves` the verifier accepts a proof and
      a first root exactly when they are the prover's proof and the root of the first
      `first` leaves, unless two of the pairs hashed on either side collide. */
  lemma ConsistencySound(h: Hasher, leaves: seq<Digest>, first: nat, proof: seq<Digest>, root1: Digest)
    requires 0 < first <= |leaves|
    requires CollisionFree(h, TreePairs(h, leaves) + VerdictPairs(h, first, |leaves|, proof, root1))
    ensures ConsistencyVerdict(h, first, |leaves|, proof, root1, Root(h, leaves)) == Accepted
       <==> proof == ConsistencyProof(h, leaves, first) && root1 == Root(h, leaves[..first])
  {
    ConsistencyExact(h, leaves, first, proof, root1,
                     TreePairs(h, leaves) + VerdictPairs(h, first, |leaves|, proof, root1));
  }

  lemma {:induction false} ConsistencyExact(h: Hasher, leaves: seq<Digest>, first: nat, proof: seq<Digest>,
                                            root1: Digest, pairs: set<(Digest, Digest)>)
    requires 0 < first <= |leaves|
    requires CollisionFree(h, pairs)
    requires TreePairs(h, leaves) + VerdictPairs(h, first, |leaves|, proof, root1) <= pairs
    ensures ConsistencyVerdict(h, first, |leaves|, proof, root1, Root(h, leaves)) == Accepted
       <==> proof == ConsistencyProof(h, leaves, first) && root1 == Root(h, leaves[..first])
    decreases |leaves|
  {
    hide PairUp, Root, ConsistencyProof, TreePairs, ConsistencyVerdict, VerdictPairs, CollisionFree;
    if first == |leaves| {
      ConsistencyExactWhole(h, leaves, proof, root1);
    } else if first % 2 == 0 {
      ConsistencyExactEven(h, leaves, first, proof, root1, pairs);
    } else {
      ConsistencyExactOdd(h, leaves, first - 1, proof, root1, pairs);
    }
  }

  lemma ConsistencyExactWhole(h: Hasher, leaves: seq<Digest>, proof: seq<Digest>, root1: Digest)
    requires leaves != []
    ensures ConsistencyVerdict(h, |leaves|, |leaves|, proof, root1, Root(h, leaves)) == Accepted
       <==> proof == ConsistencyProof(h, leaves, |leaves|) && root1 == Root(h, leaves[..|leaves|])
  {
    hide Root, Climb, ClimbRight;
    assert leaves[..|leaves|] == leaves;
  }

  lemma {:induction false} ConsistencyExactEven(h: Hasher, leaves: seq<Digest>, first: nat, proof: seq<Digest>,
                                                root1: Digest, pairs: set<(Digest, Digest)>)
    requires 0 < first < |leaves| && first % 2 == 0
    requires CollisionFree(h, pairs)
    requires TreePairs(h, leaves) + VerdictPairs(h, first, |leaves|, proof, root1) <= pairs
    ensures ConsistencyVerdict(h, first, |leaves|, proof, root1, Root(h, leaves)) == Accepted
       <==> proof == ConsistencyProof(h, leaves, first) && root1 == Root(h, leaves[..first])
    decreases |leaves|, 0
  {
    hide PairUp, Root, ConsistencyProof, TreePairs, ConsistencyVerdict, VerdictPairs, CollisionFree;
    var up := PairUp(h, leaves);
    PrefixEven(h, leaves, first);
    VerdictEven(h, first, |leaves|, |up|, proof, root1, Root(h, leaves));
    VerdictPairsEven(h, first, |leaves|, |up|, proof, root1);
    TreePairsAbove(h, leaves);
    ConsistencyExact(h, up, first / 2, proof, root1, pairs);
  }

  lemma ConsistencyExactOdd(h: Hasher, leaves: seq<Digest>, index: nat, proof: seq<Digest>, root1: Digest,
                            pairs: set<(Digest, Digest)>)
    requires index + 1 < |leaves| && index % 2 == 0
    requires CollisionFree(h, pairs)
    requires TreePairs(h, leaves) + VerdictPairs(h, index + 1, |leaves|, proof, root1) <= pairs
    ensures ConsistencyVerdict(h, index + 1, |leaves|, proof, root1, Root(h, leaves)) == Accepted
       <==> proof == ConsistencyProof(h, leaves, index + 1) && root1 == Root(h, leaves[..index + 1])
  {
    hide PairUp, Root, InclusionProof, Subproof, TreePairs, CollisionFree, Climb, ClimbRight;
    PrefixOdd(h, leaves, index);
    match Start(index + 1, proof, root1)
    case None =>
    case Some((seed, rest)) =>
      ClimbExact(h, leaves, seed, index, rest, pairs);
      if index == 0 {
        assert [] + InclusionProof(h, leaves, 0) == InclusionProof(h, leaves, 0);
      } else {
        assert proof == [seed] + rest;
      }
  }
}
