/** Every write of the evidence handle keeps the invariant of the store, and what each one
    changes and leaves alone. */
module ChainInvariant {
  import opened Bits
  import opened Merkle
  import opened Frontiers
  import opened Bytes
  import opened Outcomes
  import opened Store
  import opened Graph
  import opened Chain

  lemma EmptyIsSound(h: Hasher)
    ensures Sound(h, Empty)
  {
    assert forall chain :: GetMeta(Empty, chain) == None;
  }

  // ---- Append ----

  lemma {:induction false} LeavesInAt(hs: Hashes, entries: seq<EntryInput>, j: nat)
    requires j < |entries|
    ensures LeavesIn(hs, entries)[j] == hs.leaf(entries[j])
    decreases |entries|
  {
    var n := |entries| - 1;
    if j < n {
      LeavesInAt(hs, entries[..n], j);
    }
  }

  /** The block of slots an append fills, and nothing else among the entries. */
  lemma AppendEntries(hs: Hashes, st: State, chain: Text, entries: seq<EntryInput>, idem: Option<Text>, c: Text, s: int)
    ensures var after, base := AppendState(hs, st, chain, entries, idem), GetHead(st, chain);
      if c == chain && base < s <= base + |entries|
      then (c, s) in after.entries && after.entries[(c, s)] == RecordOf(hs, entries[s - base - 1], ModeOf(st, chain))
      else ((c, s) in after.entries <==> (c, s) in st.entries)
           && ((c, s) in st.entries ==> after.entries[(c, s)] == st.entries[(c, s)])
  {
    hide ApplyAll, AddDeltas, NodesAfter, EntriesAfter, Peaks;
    EntriesAfterAt(st.entries, hs, chain, GetHead(st, chain), entries, ModeOf(st, chain), c, s);
  }

  /** An append extends the stored leaf hashes by those of its entries. */
  lemma AppendLeaves(hs: Hashes, st: State, chain: Text, entries: seq<EntryInput>, idem: Option<Text>)
    requires GetHead(st, chain) >= 0 && ModeOf(st, chain)
    ensures LeavesOf(AppendState(hs, st, chain, entries, idem), chain) == LeavesOf(st, chain) + LeavesIn(hs, entries)
  {
    hide ApplyAll, AddDeltas, NodesAfter, EntriesAfter, Peaks, LeavesIn;
    var after, base := AppendState(hs, st, chain, entries, idem), GetHead(st, chain);
    assert GetHead(after, chain) == base + |entries|;
    forall i | 0 <= i < base + |entries|
      ensures LeafAt(after, chain, i) == (LeavesOf(st, chain) + LeavesIn(hs, entries))[i]
    {
      AppendEntries(hs, st, chain, entries, idem, chain, i + 1);
      if i >= base {
        LeavesInAt(hs, entries, i - base);
      }
    }
  }

  lemma NothingFits(level: nat, index: nat)
    ensures !IsSubtree(level, index, 0)
  {
    RangeGrows(index, Pow2(level));
  }

  lemma NoNodesIsExact(h: Hasher, nodes: map<(Text, nat, nat), Digest>, chain: Text)
    requires NoNodes(nodes, chain)
    ensures NodesExact(h, nodes, chain, [])
  {
    hide RangeRoot, IsSubtree;
    forall level: nat, index: nat
      ensures NodeExact(h, nodes, chain, [], level, index)
    {
      NothingFits(level, index);
    }
  }

  lemma AppendVerifiedOk(hs: Hashes, st: State, chain: Text, entries: seq<EntryInput>, idem: Option<Text>)
    requires ChainOk(hs.tree, st, chain) && ModeOf(st, chain) && entries != []
    ensures VerifiedOk(hs.tree, AppendState(hs, st, chain, entries, idem), chain)
  {
    hide ApplyAll, AddDeltas, NodesAfter, EntriesAfter, Peaks, LeavesIn, NodesExact;
    var after, base := AppendState(hs, st, chain, entries, idem), GetHead(st, chain);
    var leaves, more := LeavesOf(st, chain), LeavesIn(hs, entries);
    AppendLeaves(hs, st, chain, entries, idem);
    if GetMeta(st, chain) == None {
      NoNodesIsExact(hs.tree, st.nodes, chain);
    }
    NewNodesExact(hs.tree, st.nodes, chain, leaves, more);
    forall s
      ensures (chain, s) in after.entries <==> 1 <= s <= GetHead(after, chain)
      ensures (chain, s) in after.entries ==> after.entries[(chain, s)].leafHash.Some?
    {
      AppendEntries(hs, st, chain, entries, idem, chain, s);
    }
  }

  lemma AppendPlainOk(hs: Hashes, st: State, chain: Text, entries: seq<EntryInput>, idem: Option<Text>)
    requires ChainOk(hs.tree, st, chain) && !ModeOf(st, chain)
    ensures PlainOk(AppendState(hs, st, chain, entries, idem), chain)
  {
    hide ApplyAll, AddDeltas, NodesAfter, EntriesAfter, Peaks, LeavesIn;
    var after := AppendState(hs, st, chain, entries, idem);
    forall s | (chain, s) in after.entries
      ensures 1 <= s <= GetHead(after, chain) && after.entries[(chain, s)].leafHash == None
    {
      AppendEntries(hs, st, chain, entries, idem, chain, s);
    }
  }

  lemma AppendIdemsOk(hs: Hashes, st: State, chain: Text, entries: seq<EntryInput>, idem: Option<Text>)
    requires IdemsOk(st, chain) && GetHead(st, chain) >= 0 && entries != []
    ensures IdemsOk(AppendState(hs, st, chain, entries, idem), chain)
  {
    hide ApplyAll, AddDeltas, NodesAfter, EntriesAfter, Peaks, LeavesIn;
  }

  lemma AppendElsewhere(hs: Hashes, st: State, chain: Text, entries: seq<EntryInput>, idem: Option<Text>, c: Text)
    requires c != chain
    ensures SameChain(st, AppendState(hs, st, chain, entries, idem), c)
  {
    hide ApplyAll, AddDeltas, NodesAfter, EntriesAfter, Peaks, LeavesIn, LeavesOf, NewNodes, RecordOf, Seqs;
    var after := AppendState(hs, st, chain, entries, idem);
    forall s
      ensures (c, s) in st.entries <==> (c, s) in after.entries
      ensures (c, s) in st.entries ==> after.entries[(c, s)] == st.entries[(c, s)]
    {
      AppendEntries(hs, st, chain, entries, idem, c, s);
    }
    if ModeOf(st, chain) {
      forall l: nat, i: nat
        ensures (c, l, i) in st.nodes <==> (c, l, i) in after.nodes
        ensures (c, l, i) in st.nodes ==> after.nodes[(c, l, i)] == st.nodes[(c, l, i)]
      {
        NodesAfterElsewhere(st.nodes, chain, NewNodes(hs.tree, LeavesOf(st, chain), LeavesIn(hs, entries)), c, l, i);
      }
    }
  }

  lemma AppendKeeps(hs: Hashes, st: State, chain: Text, entries: seq<EntryInput>, idem: Option<Text>)
    requires Sound(hs.tree, st) && entries != []
    ensures Sound(hs.tree, ApplyAll(st, AppendBatch(hs, st, chain, entries, idem)))
  {
    hide ApplyAll, VerifiedOk, PlainOk, IdemsOk, AppendBatch;
    AppendEffect(hs, st, chain, entries, idem);
    var after := AppendState(hs, st, chain, entries, idem);
    assert ChainOk(hs.tree, st, chain);
    HeadIsNat(hs.tree, st, chain);
    forall c
      ensures ChainOk(hs.tree, after, c)
    {
      assert ChainOk(hs.tree, st, c);
      if c != chain {
        AppendElsewhere(hs, st, chain, entries, idem, c);
        SameChainOk(hs.tree, st, after, c);
      } else {
        AppendIdemsOk(hs, st, chain, entries, idem);
        AppendMode(hs, st, chain, entries, idem);
        if ModeOf(st, chain) {
          AppendVerifiedOk(hs, st, chain, entries, idem);
        } else {
          AppendPlainOk(hs, st, chain, entries, idem);
        }
      }
    }
    BatchEffect(st, AllEdges(entries));
    ConsistentDependsOnGraph(ApplyAll(st, AddDeltas(st, NoDeltas, AllEdges(entries)).ops), after);
  }

  lemma HeadIsNat(h: Hasher, st: State, chain: Text)
    requires ChainOk(h, st, chain)
    ensures GetHead(st, chain) >= 0
  {
  }

  lemma AppendMode(hs: Hashes, st: State, chain: Text, entries: seq<EntryInput>, idem: Option<Text>)
    ensures GetMeta(AppendState(hs, st, chain, entries, idem), chain) == Some(ModeOf(st, chain))
  {
    hide ApplyAll, AddDeltas, NodesAfter, EntriesAfter, Peaks, LeavesIn, LeavesOf, NewNodes;
    if chain in st.metas {
      assert AppendState(hs, st, chain, entries, idem).metas == st.metas;
      assert st.metas[chain] == ModeOf(st, chain);
    }
  }

  lemma ConsistentDependsOnGraph(a: State, b: State)
    requires Consistent(a) && a.edges == b.edges && a.outs == b.outs && a.ins == b.ins
    ensures Consistent(b)
  {
    forall k: Weighted
      ensures (k in b.outs <==> IsEdge(b, k)) && (k in b.ins <==> IsEdge(b, k))
    {
      assert k in a.outs <==> IsEdge(a, k);
      assert k in a.ins <==> IsEdge(a, k);
    }
  }

  // ---- Create, redact, hard delete, graph ----

  lemma CreateKeeps(h: Hasher, st: State, chain: Text, verified: bool)
    requires Sound(h, st) && GetMeta(st, chain) == None
    ensures Sound(h, ApplyAll(st, [PutMeta(chain, verified)]))
  {
    hide Peaks, NodesExact, IdemsOk, LeavesOf;
    ApplyAllOne(st, PutMeta(chain, verified));
    var after := Apply(st, PutMeta(chain, verified));
    forall c
      ensures ChainOk(h, after, c)
    {
      assert ChainOk(h, st, c);
      if c != chain {
        SameChainOk(h, st, after, c);
      } else {
        CreatedOk(h, st, chain, verified);
      }
    }
    ConsistentDependsOnGraph(st, after);
  }

  lemma CreatedOk(h: Hasher, st: State, chain: Text, verified: bool)
    requires ChainOk(h, st, chain) && GetMeta(st, chain) == None
    ensures ChainOk(h, Apply(st, PutMeta(chain, verified)), chain)
  {
    NoNodesIsExact(h, st.nodes, chain);
  }

  function Redacted(rec: EntryRecord): EntryRecord {
    rec.(payload := [], redacted := true)
  }

  /** Redaction leaves every leaf hash of every chain. */
  lemma RedactLeaves(st: State, chain: Text, seqNo: int, c: Text)
    requires (chain, seqNo) in st.entries
    ensures LeavesOf(Apply(st, PutEntry(chain, seqNo, Redacted(st.entries[(chain, seqNo)]))), c) == LeavesOf(st, c)
  {
  }

  lemma RedactKeeps(h: Hasher, st: State, chain: Text, seqNo: int)
    requires Sound(h, st) && (chain, seqNo) in st.entries
    ensures Sound(h, ApplyAll(st, [PutEntry(chain, seqNo, Redacted(st.entries[(chain, seqNo)]))]))
  {
    var op := PutEntry(chain, seqNo, Redacted(st.entries[(chain, seqNo)]));
    ApplyAllOne(st, op);
    var after := Apply(st, op);
    forall c
      ensures ChainOk(h, after, c)
    {
      assert ChainOk(h, st, c);
      if c != chain {
        SameChainOk(h, st, after, c);
      } else {
        RedactedOk(h, st, chain, seqNo);
      }
    }
    ConsistentDependsOnGraph(st, after);
  }

  lemma RedactedOk(h: Hasher, st: State, chain: Text, seqNo: int)
    requires ChainOk(h, st, chain) && (chain, seqNo) in st.entries
    ensures ChainOk(h, Apply(st, PutEntry(chain, seqNo, Redacted(st.entries[(chain, seqNo)]))), chain)
  {
    hide Peaks, NodesExact, LeavesOf;
    RedactLeaves(st, chain, seqNo, chain);
  }

  lemma GraphWriteKeeps(h: Hasher, st: State, after: State)
    requires Sound(h, st) && Consistent(after)
    requires after == st.(edges := after.edges, outs := after.outs, ins := after.ins)
    ensures Sound(h, after)
  {
    forall c
      ensures ChainOk(h, after, c)
    {
      assert ChainOk(h, st, c);
      SameChainOk(h, st, after, c);
    }
  }

  function HardDeleteBatch(st: State, chain: Text, seqNo: int, retractEdges: bool): Batch
    requires (chain, seqNo) in st.entries
  {
    [DeleteEntry(chain, seqNo)]
    + (if retractEdges then AddDeltas(st, NoDeltas, Retractions(st.entries[(chain, seqNo)].edges)).ops else [])
  }

  /** A hard delete removes one slot and, on request, the edges of its entry; nothing else. */
  lemma HardDeleteEffect(st: State, chain: Text, seqNo: int, retractEdges: bool)
    requires (chain, seqNo) in st.entries
    ensures var after := ApplyAll(st, HardDeleteBatch(st, chain, seqNo, retractEdges));
      && after == st.(entries := st.entries - {(chain, seqNo)}, edges := after.edges, outs := after.outs, ins := after.ins)
      && after.edges == (if retractEdges then st.edges - (set d | d in st.entries[(chain, seqNo)].edges :: d.id) else st.edges)
      && (Consistent(st) ==> Consistent(after))
  {
    hide ApplyAll, AddDeltas, Effects, GraphOps, Consistent, Apply;
    var deltas := Retractions(st.entries[(chain, seqNo)].edges);
    var graph := if retractEdges then AddDeltas(st, NoDeltas, deltas).ops else [];
    var mid := Apply(st, DeleteEntry(chain, seqNo));
    DeleteEntryEffect(st, chain, seqNo);
    ApplyAllOne(st, DeleteEntry(chain, seqNo));
    ApplyAllConcat(st, [DeleteEntry(chain, seqNo)], graph);
    if retractEdges {
      RetractEffect(st, mid, deltas);
      RetractionsRemove(st.edges, st.entries[(chain, seqNo)].edges);
    } else {
      ApplyNone(mid);
      if Consistent(st) {
        ConsistentDependsOnGraph(st, mid);
      }
    }
  }

  /** Retracting deltas removes the edges they name, whatever each of them did. */
  lemma {:induction false} RetractionsRemove(edges: map<EdgeId, Weight>, deltas: seq<EdgeDelta>)
    ensures Effects(edges, Retractions(deltas)) == edges - (set d | d in deltas :: d.id)
    decreases |deltas|
  {
    hide Effects;
    if deltas == [] {
      assert Retractions(deltas) == [];
      NoEffect(edges);
      assert edges - (set d | d in deltas :: d.id) == edges;
    } else {
      var n := |deltas| - 1;
      RetractionsRemove(edges, deltas[..n]);
      assert deltas == deltas[..n] + [deltas[n]];
      assert Retractions(deltas) == Retractions(deltas[..n]) + [EdgeDelta(deltas[n].id, 0, EdgeOp.Delete)];
      EffectsSnoc(edges, Retractions(deltas[..n]), EdgeDelta(deltas[n].id, 0, EdgeOp.Delete));
      assert (set d | d in deltas :: d.id) == (set d | d in deltas[..n] :: d.id) + {deltas[n].id};
      assert edges - (set d | d in deltas[..n] :: d.id) - {deltas[n].id} == edges - (set d | d in deltas :: d.id);
    }
  }

  lemma DeleteEntryEffect(st: State, chain: Text, seqNo: int)
    ensures Apply(st, DeleteEntry(chain, seqNo)) == st.(entries := st.entries - {(chain, seqNo)})
  {
  }

  /** Deltas worked out against one state, applied to another with the same graph. */
  lemma RetractEffect(st: State, mid: State, deltas: seq<EdgeDelta>)
    requires mid.edges == st.edges && mid.outs == st.outs && mid.ins == st.ins
    ensures var after := ApplyAll(mid, AddDeltas(st, NoDeltas, deltas).ops);
      && after == mid.(edges := after.edges, outs := after.outs, ins := after.ins)
      && after.edges == Effects(st.edges, deltas)
      && (Consistent(st) ==> Consistent(after))
  {
    hide ApplyAll, AddDeltas, Effects, GraphOps, Consistent;
    var graph := AddDeltas(st, NoDeltas, deltas).ops;
    AddDeltasAreGraphOps(st, deltas);
    GraphOpsFrame(st, mid, graph);
    BatchEffect(st, deltas);
    if Consistent(st) {
      ConsistentDependsOnGraph(ApplyAll(st, graph), ApplyAll(mid, graph));
    }
  }

  lemma HardDeleteKeeps(h: Hasher, st: State, chain: Text, seqNo: int, retractEdges: bool)
    requires Sound(h, st) && (chain, seqNo) in st.entries && !ModeOf(st, chain)
    ensures Sound(h, ApplyAll(st, HardDeleteBatch(st, chain, seqNo, retractEdges)))
  {
    hide ApplyAll, HardDeleteBatch, Effects;
    HardDeleteEffect(st, chain, seqNo, retractEdges);
    var after := ApplyAll(st, HardDeleteBatch(st, chain, seqNo, retractEdges));
    forall c
      ensures ChainOk(h, after, c)
    {
      assert ChainOk(h, st, c);
      if c != chain {
        SameChainOk(h, st, after, c);
      }
    }
  }
}
