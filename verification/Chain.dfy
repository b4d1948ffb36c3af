/** Evidence chains: what each operation of the handle reads, answers and writes, and the
    invariant that every write keeps. */
module Chain {
  import opened Bits
  import opened Merkle
  import opened Frontiers
  import opened Bytes
  import opened Outcomes
  import opened Store
  import opened StoredProofs
  import opened Graph

  /** One event to append. */
  datatype EntryInput = EntryInput(etype: Text, payload: Text, at: Text, edges: seq<EdgeDelta>)

  /** The hashes in use: of tree nodes, of an entry as a leaf, and of a list of entries as
      an idempotency fingerprint. */
  datatype Hashes = Hashes(tree: Hasher, leaf: EntryInput -> Digest, fingerprint: seq<EntryInput> -> Digest)

  datatype Appended = Appended(baseSeq: int, seqs: seq<int>)

  datatype ChainDigest = ChainDigest(size: int, root: Digest)

  datatype InclusionAnswer = InclusionAnswer(seqNo: int, size: int, auditPath: seq<Digest>)

  datatype ConsistencyAnswer = ConsistencyAnswer(first: int, second: int, proof: seq<Digest>)

  /** What an operation does under the write lease: answer without writing, or commit one
      batch and answer. */
  datatype Plan<+A> = Reply(result: Result<A, EvidenceError>) | Write(batch: Batch, answer: A)

  // ---- What the store says about a chain ----

  function LeafAt(st: State, chain: Text, i: int): Digest {
    if (chain, i + 1) in st.entries && st.entries[(chain, i + 1)].leafHash.Some?
    then st.entries[(chain, i + 1)].leafHash.value
    else Digest([])
  }

  /** The stored leaf hashes of a chain, in seq order. */
  function LeavesOf(st: State, chain: Text): (leaves: seq<Digest>)
    ensures GetHead(st, chain) >= 0 ==> |leaves| == GetHead(st, chain)
  {
    if GetHead(st, chain) <= 0 then [] else seq(GetHead(st, chain), i => LeafAt(st, chain, i))
  }

  function Seqs(base: int, count: nat): seq<int> {
    seq(count, i => base + 1 + i)
  }

  /** The persisted nodes of a chain are exactly the complete subtrees above its leaves, each
      with its tree hash. */
  ghost predicate NodesExact(h: Hasher, nodes: map<(Text, nat, nat), Digest>, chain: Text, leaves: seq<Digest>) {
    forall level: nat, index: nat :: NodeExact(h, nodes, chain, leaves, level, index)
  }

  ghost predicate NodeExact(h: Hasher, nodes: map<(Text, nat, nat), Digest>, chain: Text, leaves: seq<Digest>,
                            level: nat, index: nat) {
    if IsSubtree(level, index, |leaves|)
    then (chain, level, index) in nodes && nodes[(chain, level, index)] == RangeRoot(h, leaves, level, index)
    else (chain, level, index) !in nodes
  }

  ghost predicate NoNodes(nodes: map<(Text, nat, nat), Digest>, chain: Text) {
    forall level: nat, index: nat :: (chain, level, index) !in nodes
  }

  /** A chain nobody has written to. */
  ghost predicate AbsentOk(st: State, chain: Text) {
    && chain !in st.heads && chain !in st.frontiers && NoNodes(st.nodes, chain)
    && (forall s :: (chain, s) !in st.entries)
    && (forall token :: (chain, token) !in st.idems)
  }

  /** A plain chain: some of the slots up to head, no hashes. */
  ghost predicate PlainOk(st: State, chain: Text) {
    && GetHead(st, chain) >= 0 && chain !in st.frontiers && NoNodes(st.nodes, chain)
    && (forall s :: (chain, s) in st.entries ==> 1 <= s <= GetHead(st, chain) && st.entries[(chain, s)].leafHash == None)
  }

  /** A verified chain: every slot up to head, each with a leaf hash, and the frontier and
      the nodes of exactly those leaves. */
  ghost predicate VerifiedOk(h: Hasher, st: State, chain: Text) {
    && GetHead(st, chain) >= 0
    && (forall s :: (chain, s) in st.entries <==> 1 <= s <= GetHead(st, chain))
    && (forall s :: (chain, s) in st.entries ==> st.entries[(chain, s)].leafHash.Some?)
    && GetFrontier(st, chain) == (if GetHead(st, chain) == 0 then None
                                  else Some(FrontierRecord(GetHead(st, chain), Peaks(h, LeavesOf(st, chain)))))
    && NodesExact(h, st.nodes, chain, LeavesOf(st, chain))
  }

  /** Every remembered answer is a block of seqs that were assigned. */
  ghost predicate IdemsOk(st: State, chain: Text) {
    forall token :: (chain, token) in st.idems ==> IdemOk(st.idems[(chain, token)], GetHead(st, chain))
  }

  predicate IdemOk(rec: IdemRecord, head: int) {
    && rec.baseSeq >= 0 && rec.seqs != [] && rec.seqs == Seqs(rec.baseSeq, |rec.seqs|)
    && rec.baseSeq + |rec.seqs| <= head
  }

  ghost predicate ChainOk(h: Hasher, st: State, chain: Text) {
    && IdemsOk(st, chain)
    && match GetMeta(st, chain)
       case None => AbsentOk(st, chain)
       case Some(verified) => if verified then VerifiedOk(h, st, chain) else PlainOk(st, chain)
  }

  /** The invariant of the whole store. */
  ghost predicate Sound(h: Hasher, st: State) {
    (forall chain :: ChainOk(h, st, chain)) && Consistent(st)
  }

  // ---- Reads ----

  function RequireVerified(st: State, chain: Text): bool {
    GetMeta(st, chain) != Some(false)
  }

  function DigestOf(h: Hasher, st: State, chain: Text): Result<ChainDigest, EvidenceError> {
    if !RequireVerified(st, chain) then Err(NotVerified(chain))
    else
      match GetFrontier(st, chain)
      case None => Ok(ChainDigest(0, h.empty))
      case Some(f) => Ok(ChainDigest(f.size, Bag(h, f.peaks)))
  }

  function InclusionOf(h: Hasher, st: State, chain: Text, seqNo: int, size: Option<int>): Result<InclusionAnswer, EvidenceError> {
    if !RequireVerified(st, chain) then Err(NotVerified(chain))
    else
      var head := GetHead(st, chain);
      var n := if size.Some? then size.value else head;
      if n < 1 || n > head then Err(InvalidArgument)
      else if seqNo < 1 then Err(InvalidArgument)
      else if seqNo > n then Err(EntryNotFound(chain, seqNo))
      else
        match Inclusion(h, st, chain, seqNo - 1, n).result
        case Err(e) => Err(Storage(e))
        case Ok(path) => Ok(InclusionAnswer(seqNo, n, path))
  }

  function ConsistencyOf(h: Hasher, st: State, chain: Text, first: int, second: Option<int>): Result<ConsistencyAnswer, EvidenceError> {
    if !RequireVerified(st, chain) then Err(NotVerified(chain))
    else
      var head := GetHead(st, chain);
      var n := if second.Some? then second.value else head;
      if first < 1 || first > n || n > head then Err(InvalidArgument)
      else
        match Consistency(h, st, chain, first, n).result
        case Err(e) => Err(Storage(e))
        case Ok(proof) => Ok(ConsistencyAnswer(first, n, proof))
  }

  // ---- Writes ----

  function CreatePlan(st: State, chain: Text, verified: bool): Plan<()> {
    match GetMeta(st, chain)
    case None => Write([PutMeta(chain, verified)], ())
    case Some(mode) => Reply(if mode != verified then Err(ChainModeConflict(chain)) else Ok(()))
  }

  function RecordOf(hs: Hashes, e: EntryInput, verified: bool): EntryRecord {
    EntryRecord(e.etype, e.payload, e.at, e.edges, if verified then Some(hs.leaf(e)) else None, false)
  }

  function EntryOps(hs: Hashes, chain: Text, base: int, entries: seq<EntryInput>, verified: bool): Batch
    decreases |entries|
  {
    if entries == [] then []
    else
      var n := |entries| - 1;
      EntryOps(hs, chain, base, entries[..n], verified) + [PutEntry(chain, base + 1 + n, RecordOf(hs, entries[n], verified))]
  }

  function AllEdges(entries: seq<EntryInput>): seq<EdgeDelta>
    decreases |entries|
  {
    if entries == [] then [] else AllEdges(entries[..|entries| - 1]) + entries[|entries| - 1].edges
  }

  function LeavesIn(hs: Hashes, entries: seq<EntryInput>): (leaves: seq<Digest>)
    ensures |leaves| == |entries|
    decreases |entries|
  {
    if entries == [] then [] else LeavesIn(hs, entries[..|entries| - 1]) + [hs.leaf(entries[|entries| - 1])]
  }

  /** The nodes emitted while `more` is pushed onto `leaves`. */
  function NewNodes(h: Hasher, leaves: seq<Digest>, more: seq<Digest>): seq<Node>
    decreases |more|
  {
    if more == [] then []
    else
      var n := |more| - 1;
      NewNodes(h, leaves, more[..n]) + Emitted(h, leaves + more[..n], more[n], 0)
  }

  function NodeOps(chain: Text, nodes: seq<Node>): Batch
    decreases |nodes|
  {
    if nodes == [] then []
    else
      var n := |nodes| - 1;
      NodeOps(chain, nodes[..n]) + [PutNode(chain, nodes[n].level, nodes[n].index, nodes[n].hash)]
  }

  function MerkleOps(hs: Hashes, st: State, chain: Text, entries: seq<EntryInput>): Batch {
    var leaves, more := LeavesOf(st, chain), LeavesIn(hs, entries);
    NodeOps(chain, NewNodes(hs.tree, leaves, more))
    + [PutFrontier(chain, FrontierRecord(|leaves + more|, Peaks(hs.tree, leaves + more)))]
  }

  function ModeOf(st: State, chain: Text): bool {
    GetMeta(st, chain) != Some(false)
  }

  /** The one batch of an append, in the order it is filled. */
  function AppendBatch(hs: Hashes, st: State, chain: Text, entries: seq<EntryInput>, idem: Option<Text>): Batch {
    var base := GetHead(st, chain);
    var verified := ModeOf(st, chain);
    (if GetMeta(st, chain) == None then [PutMeta(chain, true)] else [])
    + EntryOps(hs, chain, base, entries, verified)
    + AddDeltas(st, NoDeltas, AllEdges(entries)).ops
    + [PutHead(chain, base + |entries|)]
    + (if verified then MerkleOps(hs, st, chain, entries) else [])
    + (if idem.Some?
       then [PutIdem(chain, idem.value, IdemRecord(base, Seqs(base, |entries|), hs.fingerprint(entries)))]
       else [])
  }

  function AppendPlan(hs: Hashes, st: State, chain: Text, entries: seq<EntryInput>, idem: Option<Text>): Plan<Appended> {
    var base := GetHead(st, chain);
    if entries == [] then Reply(Ok(Appended(base, [])))
    else if idem.Some? && GetIdem(st, chain, idem.value).Some? then
      var rec := GetIdem(st, chain, idem.value).value;
      Reply(if rec.fingerprint == hs.fingerprint(entries) then Ok(Appended(rec.baseSeq, rec.seqs)) else Err(IdemConflict))
    else Write(AppendBatch(hs, st, chain, entries, idem), Appended(base, Seqs(base, |entries|)))
  }

  function RedactPlan(st: State, chain: Text, seqNo: int): Plan<()> {
    match GetEntry(st, chain, seqNo)
    case None => Reply(Err(EntryNotFound(chain, seqNo)))
    case Some(rec) => Write([PutEntry(chain, seqNo, rec.(payload := [], redacted := true))], ())
  }

  function Retractions(edges: seq<EdgeDelta>): seq<EdgeDelta> {
    seq(|edges|, i requires 0 <= i < |edges| => EdgeDelta(edges[i].id, 0, EdgeOp.Delete))
  }

  function HardDeletePlan(st: State, chain: Text, seqNo: int, retractEdges: bool): Plan<()> {
    if ModeOf(st, chain) then Reply(Err(VerifiedNoDelete(chain)))
    else
      match GetEntry(st, chain, seqNo)
      case None => Reply(Err(EntryNotFound(chain, seqNo)))
      case Some(rec) =>
        var retracted := if retractEdges then AddDeltas(st, NoDeltas, Retractions(rec.edges)).ops else [];
        Write([DeleteEntry(chain, seqNo)] + retracted, ())
  }

  // ---- What the batches do ----

  function EntriesAfter(entries: map<(Text, int), EntryRecord>, hs: Hashes, chain: Text, base: int,
                        inputs: seq<EntryInput>, verified: bool): map<(Text, int), EntryRecord>
    decreases |inputs|
  {
    if inputs == [] then entries
    else
      var n := |inputs| - 1;
      EntriesAfter(entries, hs, chain, base, inputs[..n], verified)[(chain, base + 1 + n) := RecordOf(hs, inputs[n], verified)]
  }

  function NodesAfter(nodes: map<(Text, nat, nat), Digest>, chain: Text, more: seq<Node>): map<(Text, nat, nat), Digest>
    decreases |more|
  {
    if more == [] then nodes
    else
      var n := |more| - 1;
      NodesAfter(nodes, chain, more[..n])[(chain, more[n].level, more[n].index) := more[n].hash]
  }

  lemma {:induction false} EntryOpsEffect(st: State, hs: Hashes, chain: Text, base: int, entries: seq<EntryInput>, verified: bool)
    ensures ApplyAll(st, EntryOps(hs, chain, base, entries, verified))
         == st.(entries := EntriesAfter(st.entries, hs, chain, base, entries, verified))
    decreases |entries|
  {
    if entries != [] {
      var n := |entries| - 1;
      EntryOpsEffect(st, hs, chain, base, entries[..n], verified);
      ApplyAllSnoc(st, EntryOps(hs, chain, base, entries[..n], verified),
                   PutEntry(chain, base + 1 + n, RecordOf(hs, entries[n], verified)));
    }
  }

  lemma {:induction false} NodeOpsEffect(st: State, chain: Text, nodes: seq<Node>)
    ensures ApplyAll(st, NodeOps(chain, nodes)) == st.(nodes := NodesAfter(st.nodes, chain, nodes))
    decreases |nodes|
  {
    if nodes != [] {
      var n := |nodes| - 1;
      NodeOpsEffect(st, chain, nodes[..n]);
      ApplyAllSnoc(st, NodeOps(chain, nodes[..n]), PutNode(chain, nodes[n].level, nodes[n].index, nodes[n].hash));
    }
  }

  /** Exactly the new block of slots is filled. */
  lemma {:induction false} EntriesAfterAt(entries: map<(Text, int), EntryRecord>, hs: Hashes, chain: Text, base: int,
                                          inputs: seq<EntryInput>, verified: bool, c: Text, s: int)
    ensures var after := EntriesAfter(entries, hs, chain, base, inputs, verified);
      if c == chain && base < s <= base + |inputs|
      then (c, s) in after && after[(c, s)] == RecordOf(hs, inputs[s - base - 1], verified)
      else ((c, s) in after <==> (c, s) in entries) && ((c, s) in entries ==> after[(c, s)] == entries[(c, s)])
    decreases |inputs|
  {
    if inputs != [] {
      EntriesAfterAt(entries, hs, chain, base, inputs[..|inputs| - 1], verified, c, s);
    }
  }

  /** Exactly the listed nodes change, when no two of them are on one level. */
  lemma {:induction false} NodesAfterAt(nodes: map<(Text, nat, nat), Digest>, chain: Text, more: seq<Node>,
                                        c: Text, level: nat, index: nat)
    requires forall k | 0 <= k < |more| :: more[k].level == k + 1
    ensures var after, key := NodesAfter(nodes, chain, more), (c, level, index);
      if c == chain && 1 <= level <= |more| && more[level - 1].index == index
      then key in after && after[key] == more[level - 1].hash
      else (key in after <==> key in nodes) && (key in nodes ==> after[key] == nodes[key])
    decreases |more|
  {
    if more != [] {
      NodesAfterAt(nodes, chain, more[..|more| - 1], c, level, index);
    }
  }

  lemma {:induction false} NodesAfterConcat(nodes: map<(Text, nat, nat), Digest>, chain: Text, a: seq<Node>, b: seq<Node>)
    ensures NodesAfter(nodes, chain, a + b) == NodesAfter(NodesAfter(nodes, chain, a), chain, b)
    decreases |b|
  {
    if b == [] {
      assert a + b == a;
    } else {
      var n := |b| - 1;
      NodesAfterConcat(nodes, chain, a, b[..n]);
      assert (a + b)[..|a + b| - 1] == a + b[..n];
    }
  }

  /** One push takes the nodes of `leaves` to the nodes of `leaves + [leaf]`. */
  lemma PushNodesExact(h: Hasher, nodes: map<(Text, nat, nat), Digest>, chain: Text, leaves: seq<Digest>, leaf: Digest)
    requires NodesExact(h, nodes, chain, leaves)
    ensures NodesExact(h, NodesAfter(nodes, chain, Emitted(h, leaves, leaf, 0)), chain, leaves + [leaf])
  {
    hide Emitted, RangeRoot, NodesAfter, IsSubtree, EndsAt, NodeExact;
    var more := Emitted(h, leaves, leaf, 0);
    forall k | 0 <= k < |more|
      ensures more[k].level == k + 1
    {
      EmittedIsExact(h, leaves, leaf, k);
    }
    forall level: nat, index: nat
      ensures NodeExact(h, NodesAfter(nodes, chain, more), chain, leaves + [leaf], level, index)
    {
      assert NodeExact(h, nodes, chain, leaves, level, index);
      PushNodeExact(h, nodes, chain, leaves, leaf, level, index);
    }
  }

  lemma PushNodeExact(h: Hasher, nodes: map<(Text, nat, nat), Digest>, chain: Text, leaves: seq<Digest>, leaf: Digest,
                      level: nat, index: nat)
    requires NodeExact(h, nodes, chain, leaves, level, index)
    requires forall k | 0 <= k < |Emitted(h, leaves, leaf, 0)| :: Emitted(h, leaves, leaf, 0)[k].level == k + 1
    ensures NodeExact(h, NodesAfter(nodes, chain, Emitted(h, leaves, leaf, 0)), chain, leaves + [leaf], level, index)
  {
    hide Emitted, NodesAfter, Pow2, RangeRoot;
    var more := Emitted(h, leaves, leaf, 0);
    NodesAfterAt(nodes, chain, more, chain, level, index);
    if EndsAt(level, index, |leaves| + 1) {
      EmittedIsComplete(h, leaves, leaf, level, index);
      EmittedIsExact(h, leaves, leaf, level - 1);
    } else {
      if 1 <= level <= |more| {
        EmittedIsExact(h, leaves, leaf, level - 1);
      }
      if IsSubtree(level, index, |leaves|) {
        assert (leaves + [leaf])[..|leaves|] == leaves;
        RangeRootOfPrefix(h, leaves + [leaf], |leaves|, level, index);
      }
    }
  }

  lemma {:induction false} NewNodesExact(h: Hasher, nodes: map<(Text, nat, nat), Digest>, chain: Text,
                                         leaves: seq<Digest>, more: seq<Digest>)
    requires NodesExact(h, nodes, chain, leaves)
    ensures NodesExact(h, NodesAfter(nodes, chain, NewNodes(h, leaves, more)), chain, leaves + more)
    decreases |more|
  {
    if more == [] {
      assert leaves + more == leaves;
    } else {
      var n := |more| - 1;
      NewNodesExact(h, nodes, chain, leaves, more[..n]);
      var before := NewNodes(h, leaves, more[..n]);
      PushNodesExact(h, NodesAfter(nodes, chain, before), chain, leaves + more[..n], more[n]);
      NodesAfterConcat(nodes, chain, before, Emitted(h, leaves + more[..n], more[n], 0));
      assert leaves + more[..n] + [more[n]] == leaves + more;
    }
  }

  /** Nodes of other chains are not touched. */
  lemma {:induction false} NodesAfterElsewhere(nodes: map<(Text, nat, nat), Digest>, chain: Text, more: seq<Node>,
                                               c: Text, level: nat, index: nat)
    requires c != chain
    ensures var after := NodesAfter(nodes, chain, more);
      && ((c, level, index) in after <==> (c, level, index) in nodes)
      && ((c, level, index) in nodes ==> after[(c, level, index)] == nodes[(c, level, index)])
    decreases |more|
  {
    if more != [] {
      NodesAfterElsewhere(nodes, chain, more[..|more| - 1], c, level, index);
    }
  }

  /** The store after an append, record by record. */
  ghost function AppendState(hs: Hashes, st: State, chain: Text, entries: seq<EntryInput>, idem: Option<Text>): State {
    var base := GetHead(st, chain);
    var verified := ModeOf(st, chain);
    var leaves, more := LeavesOf(st, chain), LeavesIn(hs, entries);
    var graph := ApplyAll(st, AddDeltas(st, NoDeltas, AllEdges(entries)).ops);
    State(if chain in st.metas then st.metas else st.metas[chain := true],
          st.heads[chain := base + |entries|],
          EntriesAfter(st.entries, hs, chain, base, entries, verified),
          if idem.Some?
          then st.idems[(chain, idem.value) := IdemRecord(base, Seqs(base, |entries|), hs.fingerprint(entries))]
          else st.idems,
          if verified
          then st.frontiers[chain := FrontierRecord(|leaves + more|, Peaks(hs.tree, leaves + more))]
          else st.frontiers,
          if verified then NodesAfter(st.nodes, chain, NewNodes(hs.tree, leaves, more)) else st.nodes,
          graph.edges, graph.outs, graph.ins)
  }

  /** Graph operations do not see the other records. */
  ghost predicate GraphOps(batch: Batch) {
    forall op | op in batch :: op.PutEdge? || op.DeleteEdge? || op.PutOut? || op.DeleteOut? || op.PutIn? || op.DeleteIn?
  }

  lemma {:induction false} AddDeltasAreGraphOps(st: State, deltas: seq<EdgeDelta>)
    ensures GraphOps(AddDeltas(st, NoDeltas, deltas).ops)
    decreases |deltas|
  {
    hide DeltaOps, Current;
    if deltas != [] {
      var n := |deltas| - 1;
      AddDeltasAreGraphOps(st, deltas[..n]);
      DeltaOpsAreGraphOps(Current(st, AddDeltas(st, NoDeltas, deltas[..n]).overlay, deltas[n].id), deltas[n]);
    }
  }

  lemma DeltaOpsAreGraphOps(current: Option<Weight>, d: EdgeDelta)
    ensures GraphOps(DeltaOps(current, d))
  {
  }

  ghost predicate SameGraph(a: State, b: State) {
    a.edges == b.edges && a.outs == b.outs && a.ins == b.ins
  }

  ghost predicate SameOthers(a: State, b: State) {
    && a.metas == b.metas && a.heads == b.heads && a.entries == b.entries && a.idems == b.idems
    && a.frontiers == b.frontiers && a.nodes == b.nodes
  }

  lemma GraphOpFrame(st: State, other: State, op: Op)
    requires SameGraph(st, other) && GraphOps([op])
    ensures SameGraph(Apply(st, op), Apply(other, op)) && SameOthers(Apply(other, op), other)
  {
    assert op in [op];
  }

  lemma {:induction false} GraphOpsApart(st: State, other: State, batch: Batch)
    requires GraphOps(batch) && SameGraph(st, other)
    ensures SameGraph(ApplyAll(st, batch), ApplyAll(other, batch)) && SameOthers(ApplyAll(other, batch), other)
    decreases |batch|
  {
    hide Apply, SameGraph;
    if batch != [] {
      var n := |batch| - 1;
      assert batch[n] in batch;
      GraphOpsApart(st, other, batch[..n]);
      GraphOpFrame(ApplyAll(st, batch[..n]), ApplyAll(other, batch[..n]), batch[n]);
    }
  }

  lemma GraphOpsFrame(st: State, other: State, batch: Batch)
    requires GraphOps(batch)
    requires other.edges == st.edges && other.outs == st.outs && other.ins == st.ins
    ensures var after, graph := ApplyAll(other, batch), ApplyAll(st, batch);
      after == other.(edges := graph.edges, outs := graph.outs, ins := graph.ins)
  {
    hide ApplyAll, GraphOps;
    GraphOpsApart(st, other, batch);
  }

  lemma MetaOpsEffect(st: State, chain: Text)
    ensures ApplyAll(st, if GetMeta(st, chain) == None then [PutMeta(chain, true)] else [])
         == st.(metas := if chain in st.metas then st.metas else st.metas[chain := true])
  {
    ApplyNone(st);
    ApplyAllOne(st, PutMeta(chain, true));
  }

  lemma NodesThenFrontier(st: State, chain: Text, nodes: seq<Node>, f: FrontierRecord)
    ensures ApplyAll(st, NodeOps(chain, nodes) + [PutFrontier(chain, f)])
         == st.(nodes := NodesAfter(st.nodes, chain, nodes), frontiers := st.frontiers[chain := f])
  {
    hide ApplyAll, NodesAfter, NodeOps;
    NodeOpsEffect(st, chain, nodes);
    ApplyAllSnoc(st, NodeOps(chain, nodes), PutFrontier(chain, f));
  }

  lemma MerkleOpsEffect(hs: Hashes, st: State, other: State, chain: Text, entries: seq<EntryInput>)
    ensures var leaves, more := LeavesOf(st, chain), LeavesIn(hs, entries);
      ApplyAll(other, MerkleOps(hs, st, chain, entries))
      == other.(nodes := NodesAfter(other.nodes, chain, NewNodes(hs.tree, leaves, more)),
                frontiers := other.frontiers[chain := FrontierRecord(|leaves + more|, Peaks(hs.tree, leaves + more))])
  {
    hide ApplyAll, NodesAfter, NewNodes, NodeOps, Peaks, LeavesOf, LeavesIn;
    var leaves, more := LeavesOf(st, chain), LeavesIn(hs, entries);
    NodesThenFrontier(other, chain, NewNodes(hs.tree, leaves, more),
                      FrontierRecord(|leaves + more|, Peaks(hs.tree, leaves + more)));
  }

  lemma ApplySix(st: State, a: Batch, b: Batch, c: Batch, d: Batch, e: Batch, f: Batch)
    ensures ApplyAll(st, a + b + c + d + e + f)
         == ApplyAll(ApplyAll(ApplyAll(ApplyAll(ApplyAll(ApplyAll(st, a), b), c), d), e), f)
  {
    hide ApplyAll;
    ApplyAllConcat(st, a, b);
    ApplyAllConcat(st, a + b, c);
    ApplyAllConcat(st, a + b + c, d);
    ApplyAllConcat(st, a + b + c + d, e);
    ApplyAllConcat(st, a + b + c + d + e, f);
  }

  lemma AppendEffect(hs: Hashes, st: State, chain: Text, entries: seq<EntryInput>, idem: Option<Text>)
    ensures ApplyAll(st, AppendBatch(hs, st, chain, entries, idem)) == AppendState(hs, st, chain, entries, idem)
  {
    hide ApplyAll, NodesAfter, NewNodes, Peaks, EntriesAfter, EntryOps, MerkleOps, AddDeltas, GraphOps, LeavesIn, LeavesOf;
    var base, verified := GetHead(st, chain), ModeOf(st, chain);
    var a := if GetMeta(st, chain) == None then [PutMeta(chain, true)] else [];
    var b := EntryOps(hs, chain, base, entries, verified);
    var c := AddDeltas(st, NoDeltas, AllEdges(entries)).ops;
    var d := [PutHead(chain, base + |entries|)];
    var e := if verified then MerkleOps(hs, st, chain, entries) else [];
    var f := if idem.Some?
             then [PutIdem(chain, idem.value, IdemRecord(base, Seqs(base, |entries|), hs.fingerprint(entries)))]
             else [];
    ApplySix(st, a, b, c, d, e, f);
    var s1 := ApplyAll(st, a);
    MetaOpsEffect(st, chain);
    var s2 := ApplyAll(s1, b);
    EntryOpsEffect(s1, hs, chain, base, entries, verified);
    var s3 := ApplyAll(s2, c);
    AddDeltasAreGraphOps(st, AllEdges(entries));
    GraphOpsFrame(st, s2, c);
    var s4 := ApplyAll(s3, d);
    ApplyAllOne(s3, d[0]);
    var s5 := ApplyAll(s4, e);
    MerkleOpsEffect(hs, st, s4, chain, entries);
    ApplyNone(s4);
    ApplyNone(s5);
    if idem.Some? {
      ApplyAllOne(s5, f[0]);
    }
  }

  // ---- The invariant is kept ----

  /** Two stores agree on everything a chain owns. */
  ghost predicate SameChain(st: State, after: State, c: Text) {
    && GetMeta(st, c) == GetMeta(after, c) && GetHead(st, c) == GetHead(after, c)
    && (c in st.heads <==> c in after.heads)
    && GetFrontier(st, c) == GetFrontier(after, c)
    && SameEntries(st, after, c)
    && SameNodes(st.nodes, after.nodes, c)
    && (forall token :: (c, token) in st.idems <==> (c, token) in after.idems)
    && (forall token :: (c, token) in st.idems ==> after.idems[(c, token)] == st.idems[(c, token)])
  }

  ghost predicate SameEntries(st: State, after: State, c: Text) {
    && (forall s :: (c, s) in st.entries <==> (c, s) in after.entries)
    && (forall s :: (c, s) in st.entries ==> after.entries[(c, s)] == st.entries[(c, s)])
  }

  ghost predicate SameNodes(before: map<(Text, nat, nat), Digest>, after: map<(Text, nat, nat), Digest>, c: Text) {
    && (forall l: nat, i: nat :: (c, l, i) in before <==> (c, l, i) in after)
    && (forall l: nat, i: nat :: (c, l, i) in before ==> after[(c, l, i)] == before[(c, l, i)])
  }

  lemma SameLeaves(st: State, after: State, c: Text)
    requires GetHead(st, c) == GetHead(after, c) && SameEntries(st, after, c)
    ensures LeavesOf(after, c) == LeavesOf(st, c)
  {
  }

  lemma SameNodesExact(h: Hasher, before: map<(Text, nat, nat), Digest>, after: map<(Text, nat, nat), Digest>,
                       c: Text, leaves: seq<Digest>)
    requires SameNodes(before, after, c) && NodesExact(h, before, c, leaves)
    ensures NodesExact(h, after, c, leaves)
  {
    hide RangeRoot, IsSubtree;
    forall level: nat, index: nat
      ensures NodeExact(h, after, c, leaves, level, index)
    {
      assert NodeExact(h, before, c, leaves, level, index);
    }
  }

  /** A chain that a write does not touch stays as it was. */
  lemma SameChainOk(h: Hasher, st: State, after: State, c: Text)
    requires SameChain(st, after, c) && ChainOk(h, st, c)
    ensures ChainOk(h, after, c) && LeavesOf(after, c) == LeavesOf(st, c)
  {
    hide Peaks, NodesExact, LeavesOf;
    SameLeaves(st, after, c);
    if GetMeta(st, c) == Some(true) {
      SameNodesExact(h, st.nodes, after.nodes, c, LeavesOf(st, c));
    }
  }
}
