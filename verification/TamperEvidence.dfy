/** Tamper evidence, end to end: from the bytes of an entry to an accepted inclusion proof
    against a digest of any later time. */
module TamperEvidence {
  import opened Bytes
  import opened Chain
  import opened ChainInvariant
  import opened ChainRuns
  import opened Framing
  import opened Frontiers
  import opened Graph
  import opened Merkle
  import opened MerkleVerify
  import opened Outcomes
  import opened Store

  // ---- One hash of byte strings ----

  /** An inner node hashes a prefix byte and the two children. */
  function NodeBytes(left: Digest, right: Digest): Text {
    [1] + (left.bytes + right.bytes)
  }

  /** The hashes in use are one hash of byte strings, with digests of 32 bytes. */
  ghost predicate IsHashOf(hs: Hashes, sha: Text -> Digest) {
    && (forall t :: Is32(sha(t)))
    && hs.tree.empty == sha([])
    && (forall l, r :: hs.tree.node(l, r) == sha(NodeBytes(l, r)))
    && (forall e :: hs.leaf(e) == sha(LeafBytes(e)))
    && (forall es :: hs.fingerprint(es) == sha(FingerprintBytes(es)))
  }

  predicate Is32(d: Digest) {
    |d.bytes| == 32
  }

  /** No two different strings of `strings` hash alike. */
  ghost predicate NoCollision(sha: Text -> Digest, strings: set<Text>) {
    forall x, y :: x in strings && y in strings && sha(x) == sha(y) ==> x == y
  }

  ghost predicate AllIs32(pairs: set<(Digest, Digest)>) {
    forall p :: p in pairs ==> Is32(p.0) && Is32(p.1)
  }

  /** The strings hashed at inner nodes. */
  ghost function NodeStrings(pairs: set<(Digest, Digest)>): set<Text> {
    set p | p in pairs :: NodeBytes(p.0, p.1)
  }

  lemma NodeBytesInjective(p: (Digest, Digest), q: (Digest, Digest))
    requires Is32(p.0) && Is32(p.1) && Is32(q.0) && Is32(q.1) && NodeBytes(p.0, p.1) == NodeBytes(q.0, q.1)
    ensures p == q
  {
    FixedPrefix([1], p.0.bytes + p.1.bytes, [1], q.0.bytes + q.1.bytes);
    FixedPrefix(p.0.bytes, p.1.bytes, q.0.bytes, q.1.bytes);
  }

  lemma PairsCollisionFree(hs: Hashes, sha: Text -> Digest, pairs: set<(Digest, Digest)>)
    requires IsHashOf(hs, sha) && AllIs32(pairs) && NoCollision(sha, NodeStrings(pairs))
    ensures CollisionFree(hs.tree, pairs)
  {
    forall p, q | p in pairs && q in pairs && hs.tree.node(p.0, p.1) == hs.tree.node(q.0, q.1)
      ensures p == q
    {
      assert NodeBytes(p.0, p.1) in NodeStrings(pairs) && NodeBytes(q.0, q.1) in NodeStrings(pairs);
      assert sha(NodeBytes(p.0, p.1)) == sha(NodeBytes(q.0, q.1));
      NodeBytesInjective(p, q);
    }
  }

  lemma {:induction false} RootIs32(hs: Hashes, sha: Text -> Digest, leaves: seq<Digest>)
    requires IsHashOf(hs, sha) && forall i :: 0 <= i < |leaves| ==> Is32(leaves[i])
    ensures Is32(Root(hs.tree, leaves))
  {
    hide SplitPoint, Is32;
  }

  lemma {:induction false} TreePairsAre32(hs: Hashes, sha: Text -> Digest, leaves: seq<Digest>)
    requires IsHashOf(hs, sha) && forall i :: 0 <= i < |leaves| ==> Is32(leaves[i])
    ensures AllIs32(TreePairs(hs.tree, leaves))
    decreases |leaves|
  {
    hide SplitPoint, Is32, Root, IsHashOf;
    if |leaves| > 1 {
      var k := SplitPoint(|leaves|);
      TreePairsAre32(hs, sha, leaves[..k]);
      TreePairsAre32(hs, sha, leaves[k..]);
      RootIs32(hs, sha, leaves[..k]);
      RootIs32(hs, sha, leaves[k..]);
    }
  }

  lemma {:induction false} ClimbPairsAre32(hs: Hashes, sha: Text -> Digest, node: Digest, index: nat, last: nat, proof: seq<Digest>)
    requires IsHashOf(hs, sha) && index <= last && Is32(node) && forall i :: 0 <= i < |proof| ==> Is32(proof[i])
    ensures AllIs32(ClimbPairs(hs.tree, node, index, last, proof))
    decreases last
  {
    hide Is32;
    if last == 0 {
    } else if index == last && index % 2 == 0 {
      ClimbPairsAre32(hs, sha, node, index / 2, last / 2, proof);
    } else if proof != [] {
      var pair := if index % 2 == 0 then (node, proof[0]) else (proof[0], node);
      ClimbPairsAre32(hs, sha, hs.tree.node(pair.0, pair.1), index / 2, last / 2, proof[1..]);
    }
  }

  // ---- Stored leaves are leaf hashes ----

  /** Every stored leaf hash is that of some entry. */
  ghost predicate LeavesSourced(hs: Hashes, st: State) {
    forall c, s :: (c, s) in st.entries ==> IsSourced(hs, st.entries[(c, s)])
  }

  ghost predicate IsSourced(hs: Hashes, rec: EntryRecord) {
    rec.leafHash.Some? ==> exists e :: rec.leafHash.value == hs.leaf(e)
  }

  lemma NextSourced(hs: Hashes, st: State, cmd: Command)
    requires LeavesSourced(hs, st) && Sound(hs.tree, st)
    ensures LeavesSourced(hs, Next(hs, st, cmd))
  {
    hide Sound, LeavesOf, IsSourced;
    forall c, s | (c, s) in Next(hs, st, cmd).entries
      ensures IsSourced(hs, Next(hs, st, cmd).entries[(c, s)])
    {
      NextEntry(hs, st, cmd, c, s);
    }
  }

  /** A record after a command was there, or is the redaction of one that was, or is new. */
  lemma NextEntry(hs: Hashes, st: State, cmd: Command, c: Text, s: int)
    requires LeavesSourced(hs, st) && Sound(hs.tree, st) && (c, s) in Next(hs, st, cmd).entries
    ensures IsSourced(hs, Next(hs, st, cmd).entries[(c, s)])
  {
    hide Sound, Next;
    if s <= GetHead(st, c) {
      NextEvolves(hs, st, cmd, c);
    } else {
      NewEntry(hs, st, cmd, c, s);
    }
  }

  lemma NewEntry(hs: Hashes, st: State, cmd: Command, c: Text, s: int)
    requires Sound(hs.tree, st) && (c, s) in Next(hs, st, cmd).entries && s > GetHead(st, c)
    ensures IsSourced(hs, Next(hs, st, cmd).entries[(c, s)])
  {
    hide ApplyAll, AddDeltas, Effects, LeavesOf, AppendBatch, OtherGraphs, NodesAfter, EntriesAfter, Peaks, Sound, Consistent;
    NoneAbove(hs.tree, st, c, s);
    match cmd
    case CreateChain(chain, verified) =>
      ApplyAllOne(st, PutMeta(chain, verified));
    case Append(chain, entries, idem) =>
      AppendEffect(hs, st, chain, entries, idem);
      AppendEntries(hs, st, chain, entries, idem, c, s);
    case Redact(chain, seqNo) =>
      if (chain, seqNo) in st.entries {
        ApplyAllOne(st, PutEntry(chain, seqNo, Redacted(st.entries[(chain, seqNo)])));
      }
    case HardDelete(chain, seqNo, retractEdges) =>
      if (chain, seqNo) in st.entries {
        HardDeleteEffect(st, chain, seqNo, retractEdges);
      }
    case ApplyEdges(deltas) =>
      BatchEffect(st, deltas);
    case Drop(graph) =>
  }

  lemma NoneAbove(h: Hasher, st: State, c: Text, s: int)
    requires Sound(h, st) && s > GetHead(st, c)
    ensures (c, s) !in st.entries
  {
    assert ChainOk(h, st, c);
  }

  lemma {:induction false} RunSourced(hs: Hashes, cmds: seq<Command>)
    ensures LeavesSourced(hs, Run(hs, Empty, cmds))
    decreases |cmds|
  {
    hide Next, Sound;
    if cmds != [] {
      var n := |cmds| - 1;
      RunSourced(hs, cmds[..n]);
      EmptyIsSound(hs.tree);
      RunIsSound(hs, Empty, cmds[..n]);
      NextSourced(hs, Run(hs, Empty, cmds[..n]), cmds[n]);
    }
  }

  lemma LeavesAre32(hs: Hashes, sha: Text -> Digest, st: State, chain: Text)
    requires IsHashOf(hs, sha) && LeavesSourced(hs, st) && Sound(hs.tree, st) && ModeOf(st, chain)
    ensures forall i :: 0 <= i < |LeavesOf(st, chain)| ==> Is32(LeavesOf(st, chain)[i])
  {
    hide Is32, LeavesSourced;
    forall i | 0 <= i < |LeavesOf(st, chain)|
      ensures Is32(LeavesOf(st, chain)[i])
    {
      LeafStored(hs.tree, st, chain, i);
      StoredIs32(hs, sha, st, chain, i + 1);
    }
  }

  lemma LeafStored(h: Hasher, st: State, chain: Text, i: nat)
    requires Sound(h, st) && ModeOf(st, chain) && i < |LeavesOf(st, chain)|
    ensures (chain, i + 1) in st.entries && st.entries[(chain, i + 1)].leafHash == Some(LeavesOf(st, chain)[i])
  {
    assert ChainOk(h, st, chain);
  }

  lemma StoredIs32(hs: Hashes, sha: Text -> Digest, st: State, chain: Text, s: int)
    requires IsHashOf(hs, sha) && LeavesSourced(hs, st) && (chain, s) in st.entries && st.entries[(chain, s)].leafHash.Some?
    ensures Is32(st.entries[(chain, s)].leafHash.value)
  {
    hide Is32;
    assert IsSourced(hs, st.entries[(chain, s)]);
  }

  // ---- The theorem ----

  /** All byte strings that the tree over `leaves`, the check of a proof and two entries hash. */
  ghost function HashedStrings(h: Hasher, leaves: seq<Digest>, leaf: Digest, index: nat, proof: seq<Digest>,
                               a: EntryInput, b: EntryInput): set<Text>
    requires index < |leaves|
  {
    NodeStrings(TreePairs(h, leaves) + ClimbPairs(h, leaf, index, |leaves| - 1, proof)) + {LeafBytes(a), LeafBytes(b)}
  }

  /** An accepted proof of `e` at a seq, against the digest of any later time, forces `e` to
      be the entry appended at that seq: same type, payload and time, and for each edge and
      operation the same deltas in the same order; and the proof to be the one served. Short,
      that is, of two of the byte strings hashed on either side having one hash. */
  lemma TamperEvident(hs: Hashes, sha: Text -> Digest, before: seq<Command>, chain: Text, entries: seq<EntryInput>,
                      idem: Option<Text>, cmds: seq<Command>, j: nat, e: EntryInput, proof: seq<Digest>)
    requires IsHashOf(hs, sha) && j < |entries| && ModeOf(Run(hs, Empty, before), chain)
    requires AppendPlan(hs, Run(hs, Empty, before), chain, entries, idem).Write?
    requires FitsEntry(e) && FitsEntry(entries[j]) && forall i :: 0 <= i < |proof| ==> Is32(proof[i])
    ensures var st := Run(hs, Empty, before);
      var later := Run(hs, Next(hs, st, Append(chain, entries, idem)), cmds);
      var seqNo := AppendPlan(hs, st, chain, entries, idem).answer.seqs[j];
      && DigestOf(hs.tree, later, chain).Ok?
      && var d, leaves := DigestOf(hs.tree, later, chain).value, LeavesOf(later, chain);
         && 0 < seqNo <= d.size == |leaves|
         && (NoCollision(sha, HashedStrings(hs.tree, leaves, hs.leaf(e), seqNo - 1, proof, e, entries[j])) ==>
               (InclusionRoot(hs.tree, hs.leaf(e), seqNo - 1, d.size, proof) == Some(d.root)
                <==> && e.etype == entries[j].etype && e.payload == entries[j].payload && e.at == entries[j].at
                     && SortEdges(e.edges) == SortEdges(entries[j].edges)
                     && proof == InclusionProof(hs.tree, leaves, seqNo - 1)))
  {
    hide IsHashOf, Is32, Sound, LeavesOf, Root, DigestOf, InclusionRoot, Next, Run, AppendPlan, LeafBytes, FitsEntry,
         HashedStrings, NoCollision, LeavesSourced, InclusionProof, SortEdges;
    var st := Run(hs, Empty, before);
    EmptyIsSound(hs.tree);
    RunIsSound(hs, Empty, before);
    AppendedLeafStays(hs, st, chain, entries, idem, cmds, j);
    var later := Run(hs, Next(hs, st, Append(chain, entries, idem)), cmds);
    var leaves, index := LeavesOf(later, chain), GetHead(st, chain) + j;
    LaterSourced(hs, before, Append(chain, entries, idem), cmds);
    LeavesAre32(hs, sha, later, chain);
    if NoCollision(sha, HashedStrings(hs.tree, leaves, hs.leaf(e), index, proof, e, entries[j])) {
      AcceptedIs(hs, sha, leaves, index, proof, e, entries[j]);
    }
  }

  lemma LaterSourced(hs: Hashes, before: seq<Command>, cmd: Command, cmds: seq<Command>)
    ensures LeavesSourced(hs, Run(hs, Next(hs, Run(hs, Empty, before), cmd), cmds))
  {
    hide Next, LeavesSourced;
    RunConcat(hs, Empty, before + [cmd], cmds);
    assert (before + [cmd])[..|before|] == before;
    RunSourced(hs, (before + [cmd]) + cmds);
  }

  lemma {:induction false} RunConcat(hs: Hashes, st: State, a: seq<Command>, b: seq<Command>)
    ensures Run(hs, st, a + b) == Run(hs, Run(hs, st, a), b)
    decreases |b|
  {
    hide Next;
    if b == [] {
      assert a + b == a;
    } else {
      assert (a + b)[..|a + b| - 1] == a + b[..|b| - 1];
      RunConcat(hs, st, a, b[..|b| - 1]);
    }
  }

  lemma AcceptedIs(hs: Hashes, sha: Text -> Digest, leaves: seq<Digest>, index: nat, proof: seq<Digest>, e: EntryInput, was: EntryInput)
    requires IsHashOf(hs, sha) && index < |leaves| && leaves[index] == hs.leaf(was) && FitsEntry(e) && FitsEntry(was)
    requires (forall i :: 0 <= i < |leaves| ==> Is32(leaves[i])) && forall i :: 0 <= i < |proof| ==> Is32(proof[i])
    requires NoCollision(sha, HashedStrings(hs.tree, leaves, hs.leaf(e), index, proof, e, was))
    ensures InclusionRoot(hs.tree, hs.leaf(e), index, |leaves|, proof) == Some(Root(hs.tree, leaves))
       <==> && e.etype == was.etype && e.payload == was.payload && e.at == was.at && SortEdges(e.edges) == SortEdges(was.edges)
            && proof == InclusionProof(hs.tree, leaves, index)
  {
    hide Is32, Root, InclusionRoot, LeafBytes, FitsEntry, InclusionProof, SortEdges, TreePairs, ClimbPairs, CollisionFree, NodeStrings;
    var pairs := TreePairs(hs.tree, leaves) + ClimbPairs(hs.tree, hs.leaf(e), index, |leaves| - 1, proof);
    TreePairsAre32(hs, sha, leaves);
    assert Is32(hs.leaf(e));
    ClimbPairsAre32(hs, sha, hs.leaf(e), index, |leaves| - 1, proof);
    PairsCollisionFree(hs, sha, pairs);
    InclusionSound(hs.tree, leaves, hs.leaf(e), index, proof);
    LeafDetermines(e, was);
    assert LeafBytes(e) in HashedStrings(hs.tree, leaves, hs.leaf(e), index, proof, e, was);
    assert LeafBytes(was) in HashedStrings(hs.tree, leaves, hs.leaf(e), index, proof, e, was);
    assert hs.leaf(e) == sha(LeafBytes(e)) && hs.leaf(was) == sha(LeafBytes(was));
  }
}
