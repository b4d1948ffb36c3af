/** What an append puts into its slots and into the graph, field by field, and that over every
    run what a read returns is what the digest commits to. */
module StoredEntries {
  import opened Merkle
  import opened Frontiers
  import opened MerkleVerify
  import opened Bytes
  import opened Outcomes
  import opened Store
  import opened Graph
  import opened Chain
  import opened ChainInvariant
  import opened ChainRuns

  /** The record holds the entry as it was given. */
  predicate HoldsEntry(rec: EntryRecord, e: EntryInput) {
    rec.etype == e.etype && rec.payload == e.payload && rec.at == e.at && rec.edges == e.edges && !rec.redacted
  }

  /** The entry that a record shows. */
  function Shown(rec: EntryRecord): EntryInput {
    EntryInput(rec.etype, rec.payload, rec.at, rec.edges)
  }

  /** Entry `j` of an append is answered with its seq, counted up from the head, and held as it
      was given under that seq; a chain that was not there is a verified one. */
  ghost predicate Stores(hs: Hashes, st: State, after: State, chain: Text, entries: seq<EntryInput>, answer: Appended, j: nat)
    requires j < |entries|
  {
    var n := GetHead(st, chain) + 1 + j;
    && answer.baseSeq == GetHead(st, chain) && |answer.seqs| == |entries| && answer.seqs[j] == n
    && GetHead(after, chain) == GetHead(st, chain) + |entries|
    && (chain, n) in after.entries
    && HoldsEntry(after.entries[(chain, n)], entries[j])
    && after.entries[(chain, n)].leafHash == (if GetMeta(st, chain) == Some(false) then None else Some(hs.leaf(entries[j])))
    && GetMeta(after, chain) == (if GetMeta(st, chain) == None then Some(true) else GetMeta(st, chain))
  }

  lemma AppendStores(hs: Hashes, st: State, chain: Text, entries: seq<EntryInput>, idem: Option<Text>, j: nat)
    requires AppendPlan(hs, st, chain, entries, idem).Write? && j < |entries|
    ensures Stores(hs, st, Next(hs, st, Append(chain, entries, idem)), chain, entries,
                   AppendPlan(hs, st, chain, entries, idem).answer, j)
  {
    hide ApplyAll, AppendBatch, AppendPlan, Next, AddDeltas, NodesAfter, EntriesAfter, Peaks, LeavesIn, LeavesOf, NewNodes;
    AppendedState(hs, st, chain, entries, idem);
    AppendEntries(hs, st, chain, entries, idem, chain, GetHead(st, chain) + 1 + j);
  }

  // ---- The graph after an append ----

  lemma AllEdgesSnoc(entries: seq<EntryInput>, e: EntryInput)
    ensures AllEdges(entries + [e]) == AllEdges(entries) + e.edges
  {
    assert (entries + [e])[..|entries|] == entries;
  }

  lemma {:induction false} AllEdgesConcat(a: seq<EntryInput>, b: seq<EntryInput>)
    ensures AllEdges(a + b) == AllEdges(a) + AllEdges(b)
    decreases |b|
  {
    hide AllEdges;
    if b == [] {
      assert a + b == a;
      NoEdges();
    } else {
      var n := |b| - 1;
      AllEdgesConcat(a, b[..n]);
      AllEdgesSnoc(a + b[..n], b[n]);
      AllEdgesSnoc(b[..n], b[n]);
      assert a + b == a + b[..n] + [b[n]] && b == b[..n] + [b[n]];
    }
  }

  lemma NoEdges()
    ensures AllEdges([]) == []
  {
  }

  lemma AllEdgesOne(e: EntryInput)
    ensures AllEdges([e]) == e.edges
  {
    assert [e][..0] == [] && AllEdges([]) == [];
    assert [] + e.edges == e.edges;
  }

  /** The graph after an append of one entry is what its deltas mean; after an append of two
      lists, what an append of the second means after an append of the first. */
  lemma AppendGraph(hs: Hashes, st: State, chain: Text, e: EntryInput, a: seq<EntryInput>, b: seq<EntryInput>)
    requires a != [] && b != []
    ensures Next(hs, st, Append(chain, [e], None)).edges == Effects(st.edges, e.edges)
    ensures var first := Next(hs, st, Append(chain, a, None));
            Next(hs, st, Append(chain, a + b, None)).edges == Next(hs, first, Append(chain, b, None)).edges
  {
    hide Next, AllEdges, Effects;
    AppendEdges(hs, st, chain, [e]);
    AllEdgesOne(e);
    AppendEdges(hs, st, chain, a);
    AppendEdges(hs, st, chain, a + b);
    AppendEdges(hs, Next(hs, st, Append(chain, a, None)), chain, b);
    AllEdgesConcat(a, b);
    EffectsConcat(st.edges, AllEdges(a), AllEdges(b));
  }

  lemma AppendEdges(hs: Hashes, st: State, chain: Text, entries: seq<EntryInput>)
    requires entries != []
    ensures Next(hs, st, Append(chain, entries, None)).edges == Effects(st.edges, AllEdges(entries))
  {
    hide ApplyAll, AppendBatch, AddDeltas, NodesAfter, EntriesAfter, Peaks, LeavesIn, LeavesOf, NewNodes, AllEdges, Effects;
    AppendEffect(hs, st, chain, entries, None);
    BatchEffect(st, AllEdges(entries));
  }

  // ---- What reads return is what digests commit to ----

  /** Every leaf hash is that of what its record shows, unless that was redacted. */
  ghost predicate Truthful(hs: Hashes, st: State) {
    forall c, n :: (c, n) in st.entries ==> TruthfulRecord(hs, st.entries[(c, n)])
  }

  predicate TruthfulRecord(hs: Hashes, rec: EntryRecord) {
    rec.leafHash.Some? && !rec.redacted ==> rec.leafHash == Some(hs.leaf(Shown(rec)))
  }

  lemma NextTruthful(hs: Hashes, st: State, cmd: Command)
    requires Truthful(hs, st)
    ensures Truthful(hs, Next(hs, st, cmd))
  {
    hide ApplyAll, AppendBatch, AddDeltas, Effects, NodesAfter, EntriesAfter, Peaks, LeavesIn, LeavesOf, NewNodes, OtherGraphs;
    match cmd
    case CreateChain(chain, verified) => ApplyAllOne(st, PutMeta(chain, verified));
    case Append(chain, entries, idem) => AppendTruthful(hs, st, chain, entries, idem);
    case Redact(chain, seqNo) =>
      if (chain, seqNo) in st.entries {
        ApplyAllOne(st, PutEntry(chain, seqNo, Redacted(st.entries[(chain, seqNo)])));
      }
    case HardDelete(chain, seqNo, retractEdges) =>
      if (chain, seqNo) in st.entries {
        HardDeleteEffect(st, chain, seqNo, retractEdges);
      }
    case ApplyEdges(deltas) => BatchEffect(st, deltas);
    case Drop(graph) =>
  }

  lemma AppendTruthful(hs: Hashes, st: State, chain: Text, entries: seq<EntryInput>, idem: Option<Text>)
    requires Truthful(hs, st)
    ensures Truthful(hs, Next(hs, st, Append(chain, entries, idem)))
  {
    hide ApplyAll, AppendBatch, AddDeltas, NodesAfter, EntriesAfter, Peaks, LeavesIn, LeavesOf, NewNodes;
    var after := Next(hs, st, Append(chain, entries, idem));
    if AppendPlan(hs, st, chain, entries, idem).Write? {
      AppendEffect(hs, st, chain, entries, idem);
      forall c, n | (c, n) in after.entries
        ensures TruthfulRecord(hs, after.entries[(c, n)])
      {
        AppendEntries(hs, st, chain, entries, idem, c, n);
      }
    }
  }

  lemma {:induction false} RunTruthful(hs: Hashes, st: State, cmds: seq<Command>)
    requires Truthful(hs, st)
    ensures Truthful(hs, Run(hs, st, cmds))
    decreases |cmds|
  {
    hide Truthful, Next;
    if cmds != [] {
      RunTruthful(hs, st, cmds[..|cmds| - 1]);
      NextTruthful(hs, Run(hs, st, cmds[..|cmds| - 1]), cmds[|cmds| - 1]);
    }
  }

  lemma EmptyTruthful(hs: Hashes)
    ensures Truthful(hs, Empty)
  {
  }

  /** After any run, every record of a verified chain that was not redacted is provable as it is
      read: the inclusion proof of its seq takes the leaf hash of what the record shows to the
      digest of the chain. */
  lemma ReadsAreProvable(hs: Hashes, cmds: seq<Command>, chain: Text, n: int)
    requires var st := Run(hs, Empty, cmds);
      ModeOf(st, chain) && (chain, n) in st.entries && !st.entries[(chain, n)].redacted
    ensures var st := Run(hs, Empty, cmds);
      && DigestOf(hs.tree, st, chain).Ok? && InclusionOf(hs.tree, st, chain, n, None).Ok?
      && var d, a := DigestOf(hs.tree, st, chain).value, InclusionOf(hs.tree, st, chain, n, None).value;
         && 0 < n <= d.size
         && InclusionRoot(hs.tree, hs.leaf(Shown(st.entries[(chain, n)])), n - 1, d.size, a.auditPath) == Some(d.root)
  {
    hide Sound, Run, LeavesOf, Root, DigestOf, InclusionOf, InclusionRoot, InclusionProof, Truthful;
    var st := Run(hs, Empty, cmds);
    EmptyIsSound(hs.tree);
    RunIsSound(hs, Empty, cmds);
    EmptyTruthful(hs);
    RunTruthful(hs, Empty, cmds);
    LeafOfRecord(hs, st, chain, n);
    var leaves := LeavesOf(st, chain);
    DigestIsRoot(hs.tree, st, chain);
    InclusionAnswers(hs.tree, st, chain, n, None);
    assert leaves[..|leaves|] == leaves;
    InclusionComplete(hs.tree, leaves, n - 1);
  }

  lemma LeafOfRecord(hs: Hashes, st: State, chain: Text, n: int)
    requires Sound(hs.tree, st) && Truthful(hs, st) && ModeOf(st, chain)
    requires (chain, n) in st.entries && !st.entries[(chain, n)].redacted
    ensures GetHead(st, chain) == |LeavesOf(st, chain)| && 1 <= n <= |LeavesOf(st, chain)|
    ensures LeavesOf(st, chain)[n - 1] == hs.leaf(Shown(st.entries[(chain, n)]))
  {
    hide NodesExact, NoNodes, Peaks;
    assert ChainOk(hs.tree, st, chain);
  }
}
