/** The write operations of the evidence handle, as they run: read under the lease, fill one
    batch, commit it, then flush. */
module ChainOps {
  import opened Merkle
  import opened Frontiers
  import opened Bytes
  import opened Outcomes
  import opened Store
  import opened Graph
  import opened Chain
  import opened ChainInvariant

  /** The database as a plan leaves it: a reply writes and flushes nothing, a write commits
      exactly its batch and makes it durable. */
  ghost predicate Follows<A>(log: seq<Batch>, durable: nat, log': seq<Batch>, durable': nat, plan: Plan<A>,
                             r: Result<A, EvidenceError>) {
    match plan
    case Reply(result) => r == result && log' == log && durable' == durable
    case Write(batch, answer) => r == Ok(answer) && log' == log + [batch] && durable' == |log'|
  }

  method CommitAndFlush(db: Database, batch: Batch)
    requires db.Valid()
    modifies db
    ensures db.Valid() && db.log == old(db.log) + [batch] && db.durable == |db.log|
    ensures db.View() == ApplyAll(old(db.View()), batch)
  {
    db.Commit(batch);
    db.Flush();
  }

  method CreateChain(db: Database, ghost h: Hasher, chain: Text, verified: bool) returns (r: Result<(), EvidenceError>)
    requires db.Valid() && Sound(h, db.View())
    modifies db
    ensures db.Valid() && Sound(h, db.View())
    ensures if !db.writer then Follows(old(db.log), old(db.durable), db.log, db.durable, Reply(Err(NotWriter)), r)
            else Follows(old(db.log), old(db.durable), db.log, db.durable, CreatePlan(old(db.View()), chain, verified), r)
  {
    hide Sound, ApplyAll, Replay;
    if !db.writer {
      return Err(NotWriter);
    }
    var st := db.Read();
    match GetMeta(st, chain)
    case Some(existing) =>
      if existing != verified {
        return Err(ChainModeConflict(chain));
      }
      return Ok(());
    case None =>
      CreateKeeps(h, st, chain, verified);
      CommitAndFlush(db, [PutMeta(chain, verified)]);
      return Ok(());
  }

  lemma {:induction false} NodeOpsConcat(chain: Text, a: seq<Node>, b: seq<Node>)
    ensures NodeOps(chain, a + b) == NodeOps(chain, a) + NodeOps(chain, b)
    decreases |b|
  {
    if b == [] {
      assert a + b == a;
    } else {
      var n := |b| - 1;
      NodeOpsConcat(chain, a, b[..n]);
      assert (a + b)[..|a + b| - 1] == a + b[..n];
    }
  }

  /** The puts of the nodes one push emitted. */
  method PutNodes(chain: Text, nodes: seq<Node>) returns (ops: Batch)
    ensures ops == NodeOps(chain, nodes)
  {
    ops := [];
    for i := 0 to |nodes|
      invariant ops == NodeOps(chain, nodes[..i])
    {
      assert nodes[..i + 1][..i] == nodes[..i];
      ops := ops + [PutNode(chain, nodes[i].level, nodes[i].index, nodes[i].hash)];
    }
    assert nodes[..|nodes|] == nodes;
  }

  /** Advances the stored frontier over the new leaves and persists the nodes it emits. */
  method AdvanceFrontier(h: Hasher, chain: Text, stored: Option<FrontierRecord>, more: seq<Digest>, ghost leaves: seq<Digest>)
    returns (ops: Batch)
    requires match stored { case None => leaves == [] case Some(f) => f == FrontierRecord(|leaves|, Peaks(h, leaves)) }
    ensures ops == NodeOps(chain, NewNodes(h, leaves, more))
                   + [PutFrontier(chain, FrontierRecord(|leaves + more|, Peaks(h, leaves + more)))]
  {
    hide Peaks, Emitted, NodeOps;
    StartFrontier(h, chain);
    var record := if stored.Some? then stored.value else FrontierRecord(0, []);
    var frontier := new Frontier(record.size, record.peaks);
    ops := [];
    assert leaves + more[..0] == leaves;
    for i := 0 to |more|
      invariant frontier.Represents(h, leaves + more[..i])
      invariant ops == NodeOps(chain, NewNodes(h, leaves, more[..i]))
      invariant fresh(frontier)
    {
      assert more[..i + 1][..i] == more[..i];
      assert leaves + more[..i] + [more[i]] == leaves + more[..i + 1];
      var emitted := frontier.PushEmit(h, more[i], leaves + more[..i]);
      NodeOpsConcat(chain, NewNodes(h, leaves, more[..i]), emitted);
      var puts := PutNodes(chain, emitted);
      ops := ops + puts;
    }
    assert more[..|more|] == more;
    ops := ops + [PutFrontier(chain, FrontierRecord(frontier.size, frontier.peaks))];
  }

  lemma StartFrontier(h: Hasher, chain: Text)
    ensures Peaks(h, []) == [] && NodeOps(chain, []) == []
  {
  }

  /** The records of the new entries, with the leaf hashes and edges they contribute. */
  method FillEntries(hs: Hashes, chain: Text, base: int, entries: seq<EntryInput>, verified: bool)
    returns (ops: Batch, leaves: seq<Digest>, allEdges: seq<EdgeDelta>)
    ensures ops == EntryOps(hs, chain, base, entries, verified)
    ensures verified ==> leaves == LeavesIn(hs, entries)
    ensures allEdges == AllEdges(entries)
  {
    ops, leaves, allEdges := [], [], [];
    for i := 0 to |entries|
      invariant ops == EntryOps(hs, chain, base, entries[..i], verified)
      invariant verified ==> leaves == LeavesIn(hs, entries[..i])
      invariant allEdges == AllEdges(entries[..i])
    {
      assert entries[..i + 1][..i] == entries[..i];
      var e := entries[i];
      var rec := EntryRecord(e.etype, e.payload, e.at, e.edges, None, false);
      if verified {
        var lh := hs.leaf(e);
        rec := rec.(leafHash := Some(lh));
        leaves := leaves + [lh];
      }
      allEdges := allEdges + e.edges;
      ops := ops + [PutEntry(chain, base + 1 + i, rec)];
    }
    assert entries[..|entries|] == entries;
  }

  /** The edge operations of a batch; none when there are no edges. */
  method GraphPart(st: State, deltas: seq<EdgeDelta>) returns (ops: Batch)
    ensures ops == AddDeltas(st, NoDeltas, deltas).ops
  {
    hide AddDelta;
    NoOps(st);
    ops := [];
    if deltas != [] {
      var batch := new EdgeBatch();
      var _ := batch.ApplyAllDeltas(st, deltas);
      ops := batch.ops;
    }
  }

  /** What a sound store holds as a chain's frontier. */
  lemma StoredFrontier(h: Hasher, st: State, chain: Text)
    requires Sound(h, st) && ModeOf(st, chain)
    ensures var leaves := LeavesOf(st, chain);
      match GetFrontier(st, chain)
      case None => leaves == []
      case Some(f) => f == FrontierRecord(|leaves|, Peaks(h, leaves))
  {
    assert ChainOk(h, st, chain);
  }

  method Append(db: Database, hs: Hashes, chain: Text, entries: seq<EntryInput>, idem: Option<Text>)
    returns (r: Result<Appended, EvidenceError>)
    requires db.Valid() && Sound(hs.tree, db.View())
    modifies db
    ensures db.Valid() && Sound(hs.tree, db.View())
    ensures if entries != [] && !db.writer then Follows(old(db.log), old(db.durable), db.log, db.durable, Reply(Err(NotWriter)), r)
            else Follows(old(db.log), old(db.durable), db.log, db.durable, AppendPlan(hs, old(db.View()), chain, entries, idem), r)
  {
    hide Sound, ApplyAll, Replay, EntryOps, LeavesIn, AllEdges, NewNodes, NodeOps, Peaks, AddDeltas, LeavesOf;
    var st := db.Read();
    if entries == [] {
      return Ok(Appended(GetHead(st, chain), []));
    }
    if !db.writer {
      return Err(NotWriter);
    }
    var existing := GetMeta(st, chain);
    var fp := hs.fingerprint(entries);
    if idem.Some? {
      var seen := GetIdem(st, chain, idem.value);
      if seen.Some? {
        if seen.value.fingerprint == fp {
          return Ok(Appended(seen.value.baseSeq, seen.value.seqs));
        }
        return Err(IdemConflict);
      }
    }
    var base := GetHead(st, chain);
    var seqs := Seqs(base, |entries|);
    var verified := if existing.Some? then existing.value else true;
    var batch := [];
    if existing == None {
      batch := [PutMeta(chain, true)];
    }
    var puts, leaves, allEdges := FillEntries(hs, chain, base, entries, verified);
    batch := batch + puts;
    var edgeOps := GraphPart(st, allEdges);
    batch := batch + edgeOps + [PutHead(chain, base + |entries|)];
    var merkleOps := [];
    if verified {
      StoredFrontier(hs.tree, st, chain);
      merkleOps := AdvanceFrontier(hs.tree, chain, GetFrontier(st, chain), leaves, LeavesOf(st, chain));
    }
    batch := batch + merkleOps;
    var idemOps := [];
    if idem.Some? {
      idemOps := [PutIdem(chain, idem.value, IdemRecord(base, seqs, fp))];
    }
    batch := batch + idemOps;
    assert batch == AppendBatch(hs, st, chain, entries, idem);
    AppendKeeps(hs, st, chain, entries, idem);
    CommitAndFlush(db, batch);
    return Ok(Appended(base, seqs));
  }

  method Redact(db: Database, ghost h: Hasher, chain: Text, seqNo: int) returns (r: Result<(), EvidenceError>)
    requires db.Valid() && Sound(h, db.View())
    modifies db
    ensures db.Valid() && Sound(h, db.View())
    ensures if !db.writer then Follows(old(db.log), old(db.durable), db.log, db.durable, Reply(Err(NotWriter)), r)
            else Follows(old(db.log), old(db.durable), db.log, db.durable, RedactPlan(old(db.View()), chain, seqNo), r)
  {
    hide Sound, ApplyAll, Replay;
    if !db.writer {
      return Err(NotWriter);
    }
    var st := db.Read();
    match GetEntry(st, chain, seqNo)
    case None =>
      return Err(EntryNotFound(chain, seqNo));
    case Some(rec) =>
      RedactKeeps(h, st, chain, seqNo);
      CommitAndFlush(db, [PutEntry(chain, seqNo, rec.(payload := [], redacted := true))]);
      return Ok(());
  }

  /** One delete delta per edge the entry named. */
  method RetractionsOf(edges: seq<EdgeDelta>) returns (deltas: seq<EdgeDelta>)
    ensures deltas == Retractions(edges)
  {
    deltas := [];
    for i := 0 to |edges|
      invariant deltas == Retractions(edges[..i])
    {
      deltas := deltas + [EdgeDelta(edges[i].id, 0, EdgeOp.Delete)];
    }
    assert edges[..|edges|] == edges;
  }

  method HardDelete(db: Database, ghost h: Hasher, chain: Text, seqNo: int, retractEdges: bool)
    returns (r: Result<(), EvidenceError>)
    requires db.Valid() && Sound(h, db.View())
    modifies db
    ensures db.Valid() && Sound(h, db.View())
    ensures if !db.writer then Follows(old(db.log), old(db.durable), db.log, db.durable, Reply(Err(NotWriter)), r)
            else Follows(old(db.log), old(db.durable), db.log, db.durable, HardDeletePlan(old(db.View()), chain, seqNo, retractEdges), r)
  {
    hide Sound, ApplyAll, Replay, AddDeltas;
    if !db.writer {
      return Err(NotWriter);
    }
    var st := db.Read();
    var meta := GetMeta(st, chain);
    var verified := if meta.Some? then meta.value else true;
    if verified {
      return Err(VerifiedNoDelete(chain));
    }
    match GetEntry(st, chain, seqNo)
    case None =>
      return Err(EntryNotFound(chain, seqNo));
    case Some(rec) =>
      var retracted := [];
      if retractEdges {
        var deltas := RetractionsOf(rec.edges);
        retracted := GraphPart(st, deltas);
      }
      HardDeleteKeeps(h, st, chain, seqNo, retractEdges);
      CommitAndFlush(db, [DeleteEntry(chain, seqNo)] + retracted);
      return Ok(());
  }
}
