/** Appends on the flat map: every key of an append batch is within the widths of the key
    encoding, so committing the batch there is the append of `Chain`. */
module FlatChains {
  import opened Bits
  import opened Bytes
  import opened Merkle
  import opened Frontiers
  import opened Outcomes
  import opened Store
  import opened Graph
  import opened Chain
  import opened ChainInvariant
  import K = Keys

  ghost predicate AllFit(batch: Batch) {
    forall i :: 0 <= i < |batch| ==> K.Fits(K.KeyOf(batch[i]))
  }

  lemma AllFitConcat(a: Batch, b: Batch)
    requires AllFit(a) && AllFit(b)
    ensures AllFit(a + b)
  {
  }

  lemma {:induction false} EntriesFit(hs: Hashes, chain: Text, base: int, entries: seq<EntryInput>, verified: bool)
    requires Short(chain) && MinI64 <= base && base + |entries| <= MaxI64
    ensures AllFit(EntryOps(hs, chain, base, entries, verified))
    decreases |entries|
  {
    if entries != [] {
      EntriesFit(hs, chain, base, entries[..|entries| - 1], verified);
    }
  }

  // ---- Nodes ----

  ghost predicate SmallNodes(nodes: seq<Node>) {
    forall i :: 0 <= i < |nodes| ==> nodes[i].level < 256 && nodes[i].index < 2 * SignBit
  }

  lemma {:induction false} Pow2Grows(level: nat, more: nat)
    requires level <= more
    ensures Pow2(level) <= Pow2(more)
    decreases more
  {
    if level < more {
      Pow2Grows(level, more - 1);
    }
  }

  lemma {:induction false} Pow2Of64()
    ensures Pow2(64) == 2 * SignBit
  {
    assert Pow2(8) == 256;
    assert Pow2(16) == 256 * 256;
    assert Pow2(24) == 256 * 256 * 256;
    assert Pow2(32) == 256 * 256 * 256 * 256;
    assert Pow2(40) == 256 * Pow2(32);
    assert Pow2(48) == 256 * Pow2(40);
    assert Pow2(56) == 256 * Pow2(48);
  }

  /** A complete subtree over fewer than 2^63 leaves has a small level and index. */
  lemma NodeSmall(level: nat, index: nat, n: nat)
    requires EndsAt(level, index, n) && n <= MaxI64
    ensures level < 256 && index < 2 * SignBit
  {
    hide Pow2;
    ProductBounds(index + 1, Pow2(level));
    if level >= 64 {
      Pow2Of64();
      Pow2Grows(64, level);
    }
  }

  lemma ProductBounds(a: nat, b: nat)
    requires a >= 1 && b >= 1
    ensures a <= a * b && b <= a * b
  {
  }

  lemma {:induction false} NewNodesSmall(h: Hasher, leaves: seq<Digest>, more: seq<Digest>)
    requires |leaves| + |more| <= MaxI64
    ensures SmallNodes(NewNodes(h, leaves, more))
    decreases |more|
  {
    hide Emitted, Pow2, EndsAt;
    if more != [] {
      var n := |more| - 1;
      NewNodesSmall(h, leaves, more[..n]);
      var pushed := leaves + more[..n];
      var emitted := Emitted(h, pushed, more[n], 0);
      forall k | 0 <= k < |emitted|
        ensures emitted[k].level < 256 && emitted[k].index < 2 * SignBit
      {
        EmittedIsExact(h, pushed, more[n], k);
        NodeSmall(emitted[k].level, emitted[k].index, |pushed| + 1);
      }
    }
  }

  lemma {:induction false} NodesFit(chain: Text, nodes: seq<Node>)
    requires Short(chain) && SmallNodes(nodes)
    ensures AllFit(NodeOps(chain, nodes))
    decreases |nodes|
  {
    if nodes != [] {
      NodesFit(chain, nodes[..|nodes| - 1]);
    }
  }

  // ---- Edges ----

  ghost predicate ShortEdges(deltas: seq<EdgeDelta>) {
    forall i :: 0 <= i < |deltas| ==> K.ShortId(deltas[i].id)
  }

  lemma DeltaFits(current: Option<Weight>, d: EdgeDelta)
    requires K.ShortId(d.id)
    ensures AllFit(DeltaOps(current, d))
  {
  }

  lemma {:induction false} DeltasFit(st: State, deltas: seq<EdgeDelta>)
    requires ShortEdges(deltas)
    ensures AllFit(AddDeltas(st, NoDeltas, deltas).ops)
    decreases |deltas|
  {
    hide DeltaOps, AllFit, Current;
    if deltas == [] {
      NothingFits();
    } else {
      var n := |deltas| - 1;
      DeltasFit(st, deltas[..n]);
      var p := AddDeltas(st, NoDeltas, deltas[..n]);
      DeltaFits(Current(st, p.overlay, deltas[n].id), deltas[n]);
      AllFitConcat(p.ops, DeltaOps(Current(st, p.overlay, deltas[n].id), deltas[n]));
    }
  }

  lemma NothingFits()
    ensures AllFit([])
  {
  }

  lemma {:induction false} AllEdgesShort(entries: seq<EntryInput>)
    requires forall i :: 0 <= i < |entries| ==> ShortEdges(entries[i].edges)
    ensures ShortEdges(AllEdges(entries))
    decreases |entries|
  {
    if entries != [] {
      AllEdgesShort(entries[..|entries| - 1]);
    }
  }

  // ---- The append ----

  lemma HeadCounts(h: Hasher, st: State, chain: Text)
    requires Sound(h, st)
    ensures GetHead(st, chain) >= 0 && |LeavesOf(st, chain)| == GetHead(st, chain)
  {
    assert ChainOk(h, st, chain);
    HeadIsNat(h, st, chain);
  }

  lemma OneFits(op: Op)
    requires K.Fits(K.KeyOf(op))
    ensures AllFit([op])
  {
  }

  lemma MerkleFits(hs: Hashes, st: State, chain: Text, entries: seq<EntryInput>)
    requires Sound(hs.tree, st) && Short(chain) && GetHead(st, chain) + |entries| <= MaxI64
    ensures AllFit(MerkleOps(hs, st, chain, entries))
  {
    hide Sound, AllFit, NewNodes, LeavesOf, LeavesIn, Peaks;
    HeadCounts(hs.tree, st, chain);
    var leaves, more := LeavesOf(st, chain), LeavesIn(hs, entries);
    NewNodesSmall(hs.tree, leaves, more);
    NodesFit(chain, NewNodes(hs.tree, leaves, more));
    var last := PutFrontier(chain, FrontierRecord(|leaves + more|, Peaks(hs.tree, leaves + more)));
    OneFits(last);
    AllFitConcat(NodeOps(chain, NewNodes(hs.tree, leaves, more)), [last]);
  }

  /** In a sound store every key of an append batch can be encoded, as long as the head stays
      within 63 bits and names within 32. */
  lemma AppendFits(hs: Hashes, st: State, chain: Text, entries: seq<EntryInput>, idem: Option<Text>)
    requires Sound(hs.tree, st) && Short(chain) && GetHead(st, chain) + |entries| <= MaxI64
    requires forall i :: 0 <= i < |entries| ==> ShortEdges(entries[i].edges)
    ensures AllFit(AppendBatch(hs, st, chain, entries, idem))
  {
    hide Sound, AllFit, EntryOps, MerkleOps, AddDeltas, AllEdges, K.Fits, K.KeyOf;
    HeadCounts(hs.tree, st, chain);
    var base := GetHead(st, chain);
    NothingFits();
    ChainKeysFit(chain, base + |entries|);
    var a := if GetMeta(st, chain) == None then [PutMeta(chain, true)] else [];
    var b := EntryOps(hs, chain, base, entries, ModeOf(st, chain));
    EntriesFit(hs, chain, base, entries, ModeOf(st, chain));
    AllEdgesShort(entries);
    DeltasFit(st, AllEdges(entries));
    MerkleFits(hs, st, chain, entries);
    var c := AddDeltas(st, NoDeltas, AllEdges(entries)).ops;
    var d := [PutHead(chain, base + |entries|)];
    var e := if ModeOf(st, chain) then MerkleOps(hs, st, chain, entries) else [];
    var f := if idem.Some? then [PutIdem(chain, idem.value, IdemRecord(base, Seqs(base, |entries|), hs.fingerprint(entries)))]
             else [];
    if idem.Some? {
      IdemFits(chain, idem.value, f[0].idem);
    }
    AllFitConcat(a, b);
    AllFitConcat(a + b, c);
    AllFitConcat(a + b + c, d);
    AllFitConcat(a + b + c + d, e);
    AllFitConcat(a + b + c + d + e, f);
  }

  lemma ChainKeysFit(chain: Text, head: int)
    requires Short(chain)
    ensures AllFit([PutMeta(chain, true)]) && AllFit([PutHead(chain, head)])
  {
  }

  lemma IdemFits(chain: Text, token: Text, idem: IdemRecord)
    requires Short(chain)
    ensures AllFit([PutIdem(chain, token, idem)])
  {
  }

  /** Committing an append batch to the flat map is the append, for its tenant, and nothing
      for any other. */
  lemma AppendOnFlat(m: K.Flat, writer: Text, hs: Hashes, st: State, chain: Text, entries: seq<EntryInput>, idem: Option<Text>,
                     tenant: Text, other: State)
    requires Short(writer) && Short(tenant) && K.Holds(m, writer, st) && K.Holds(m, tenant, other)
    requires Sound(hs.tree, st) && entries != [] && Short(chain) && GetHead(st, chain) + |entries| <= MaxI64
    requires forall i :: 0 <= i < |entries| ==> ShortEdges(entries[i].edges)
    ensures var batch := AppendBatch(hs, st, chain, entries, idem);
            && (forall op :: op in batch ==> K.Fits(K.KeyOf(op)))
            && K.Holds(K.WriteOps(m, writer, batch), writer, ApplyAll(st, batch))
            && (tenant != writer ==> K.Holds(K.WriteOps(m, writer, batch), tenant, other))
            && Sound(hs.tree, ApplyAll(st, batch))
  {
    hide Sound, AppendBatch, K.Holds, K.Fits, K.KeyOf, ApplyAll, K.WriteOps, ShortEdges;
    var batch := AppendBatch(hs, st, chain, entries, idem);
    AppendFits(hs, st, chain, entries, idem);
    K.BatchHolds(m, writer, batch, writer, st);
    K.BatchHolds(m, writer, batch, tenant, other);
    AppendKeeps(hs, st, chain, entries, idem);
  }
}
