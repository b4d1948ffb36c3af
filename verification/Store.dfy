/** The records of the evidence substrate and the ordered key-value store that holds
    them. Each kind of record has its own key tag, so the store is one map per kind;
    `Keys` shows that the byte keys behind these maps never collide. */
module Store {
  import opened Merkle
  import opened Bytes
  import opened Outcomes

  type Weight = I64

  datatype Merge = Set | Max

  datatype EdgeOp = Upsert(merge: Merge) | Delete

  /** An edge identity; the weight is not part of it. */
  datatype EdgeId = EdgeId(graph: Text, src: Text, dst: Text, etype: Text)

  datatype EdgeDelta = EdgeDelta(id: EdgeId, weight: Weight, op: EdgeOp)

  /** An adjacency key: an edge identity with its weight folded in. */
  datatype Weighted = Weighted(id: EdgeId, weight: Weight)

  datatype EntryRecord = EntryRecord(etype: Text, payload: Text, at: Text, edges: seq<EdgeDelta>,
                                     leafHash: Option<Digest>, redacted: bool)

  datatype IdemRecord = IdemRecord(baseSeq: int, seqs: seq<int>, fingerprint: Digest)

  datatype FrontierRecord = FrontierRecord(size: nat, peaks: seq<Digest>)

  /** A record that a storage-backed proof needs and does not find. */
  datatype StorageError =
    | EntryMissing(seqNo: int)
    | NoLeafHash(seqNo: int)
    | NodeMissing(level: nat, index: nat)

  datatype EvidenceError =
    | IdemConflict
    | ChainModeConflict(chain: Text)
    | EntryNotFound(chain: Text, seqNo: int)
    | NotWriter
    | NotVerified(chain: Text)
    | InvalidArgument
    | VerifiedNoDelete(chain: Text)
    | Storage(cause: StorageError)

  datatype State = State(
    metas: map<Text, bool>,
    heads: map<Text, int>,
    entries: map<(Text, int), EntryRecord>,
    idems: map<(Text, Text), IdemRecord>,
    frontiers: map<Text, FrontierRecord>,
    nodes: map<(Text, nat, nat), Digest>,
    edges: map<EdgeId, Weight>,
    outs: set<Weighted>,
    ins: set<Weighted>)

  const Empty := State(map[], map[], map[], map[], map[], map[], map[], {}, {})

  /** One operation of a write batch. */
  datatype Op =
    | PutMeta(chain: Text, verified: bool)
    | PutHead(chain: Text, head: int)
    | PutEntry(chain: Text, seqNo: int, rec: EntryRecord)
    | DeleteEntry(chain: Text, seqNo: int)
    | PutIdem(chain: Text, token: Text, idem: IdemRecord)
    | PutFrontier(chain: Text, frontier: FrontierRecord)
    | PutNode(chain: Text, level: nat, index: nat, hash: Digest)
    | PutEdge(id: EdgeId, weight: Weight)
    | DeleteEdge(id: EdgeId)
    | PutOut(key: Weighted)
    | DeleteOut(key: Weighted)
    | PutIn(key: Weighted)
    | DeleteIn(key: Weighted)

  type Batch = seq<Op>

  function Apply(st: State, op: Op): State {
    match op
    case PutMeta(c, v) => st.(metas := st.metas[c := v])
    case PutHead(c, n) => st.(heads := st.heads[c := n])
    case PutEntry(c, s, r) => st.(entries := st.entries[(c, s) := r])
    case DeleteEntry(c, s) => st.(entries := st.entries - {(c, s)})
    case PutIdem(c, t, r) => st.(idems := st.idems[(c, t) := r])
    case PutFrontier(c, f) => st.(frontiers := st.frontiers[c := f])
    case PutNode(c, l, i, d) => st.(nodes := st.nodes[(c, l, i) := d])
    case PutEdge(e, w) => st.(edges := st.edges[e := w])
    case DeleteEdge(e) => st.(edges := st.edges - {e})
    case PutOut(k) => st.(outs := st.outs + {k})
    case DeleteOut(k) => st.(outs := st.outs - {k})
    case PutIn(k) => st.(ins := st.ins + {k})
    case DeleteIn(k) => st.(ins := st.ins - {k})
  }

  /** A batch takes effect as a whole, its operations in order, so the last one on a key
      wins. */
  function ApplyAll(st: State, batch: Batch): State
    decreases |batch|
  {
    if batch == [] then st else Apply(ApplyAll(st, batch[..|batch| - 1]), batch[|batch| - 1])
  }

  lemma {:induction false} ApplyAllConcat(st: State, a: Batch, b: Batch)
    ensures ApplyAll(st, a + b) == ApplyAll(ApplyAll(st, a), b)
    decreases |b|
  {
    if b == [] {
      assert a + b == a;
    } else {
      var n := |b| - 1;
      assert (a + b)[..|a + b| - 1] == a + b[..n];
      ApplyAllConcat(st, a, b[..n]);
    }
  }

  lemma ApplyAllOne(st: State, op: Op)
    ensures ApplyAll(st, [op]) == Apply(st, op)
  {
    assert [op][..0] == [];
    assert ApplyAll(st, [op][..0]) == st;
  }

  lemma ApplyAllSnoc(st: State, batch: Batch, op: Op)
    ensures ApplyAll(st, batch + [op]) == Apply(ApplyAll(st, batch), op)
  {
    assert (batch + [op])[..|batch|] == batch;
  }

  /** The writes of a log of committed batches, oldest first. */
  function Replay(st: State, log: seq<Batch>): State
    decreases |log|
  {
    if log == [] then st else ApplyAll(Replay(st, log[..|log| - 1]), log[|log| - 1])
  }

  // ---- Point reads ----

  function GetMeta(st: State, chain: Text): Option<bool> {
    if chain in st.metas then Some(st.metas[chain]) else None
  }

  /** Last assigned seq, or 0. */
  function GetHead(st: State, chain: Text): int {
    if chain in st.heads then st.heads[chain] else 0
  }

  function GetEntry(st: State, chain: Text, seqNo: int): Option<EntryRecord> {
    if (chain, seqNo) in st.entries then Some(st.entries[(chain, seqNo)]) else None
  }

  function GetIdem(st: State, chain: Text, token: Text): Option<IdemRecord> {
    if (chain, token) in st.idems then Some(st.idems[(chain, token)]) else None
  }

  function GetFrontier(st: State, chain: Text): Option<FrontierRecord> {
    if chain in st.frontiers then Some(st.frontiers[chain]) else None
  }

  function GetNode(st: State, chain: Text, level: nat, index: nat): Option<Digest> {
    if (chain, level, index) in st.nodes then Some(st.nodes[(chain, level, index)]) else None
  }

  function GetWeight(st: State, id: EdgeId): Option<Weight> {
    if id in st.edges then Some(st.edges[id]) else None
  }

  // ---- The database ----

  /** A database node: the batches committed so far, and how many of them are durable.
      Reads see every committed batch; only the writer node commits. */
  class Database {
    const writer: bool
    var log: seq<Batch>
    var durable: nat

    ghost predicate Valid()
      reads this
    {
      durable <= |log|
    }

    ghost function View(): State
      reads this
    {
      Replay(Empty, log)
    }

    constructor (writer: bool)
      ensures Valid() && this.writer == writer && View() == Empty
    {
      this.writer := writer;
      log := [];
      durable := 0;
    }

    /** Writes a batch without waiting for it to be durable. */
    method Commit(batch: Batch)
      requires Valid()
      modifies this
      ensures Valid() && log == old(log) + [batch] && durable == old(durable)
      ensures View() == ApplyAll(old(View()), batch)
    {
      assert (log + [batch])[..|log|] == log;
      log := log + [batch];
    }

    /** Makes every batch committed so far durable. */
    method Flush()
      requires Valid()
      modifies this
      ensures Valid() && log == old(log) && durable == |log|
    {
      durable := |log|;
    }

    /** The current state, read through the node. */
    method Read() returns (st: State)
      ensures st == View()
    {
      st := Empty;
      for i := 0 to |log|
        invariant st == Replay(Empty, log[..i])
      {
        assert log[..i + 1][..i] == log[..i];
        st := ApplyBatch(st, log[i]);
      }
      assert log[..|log|] == log;
    }
  }

  method ApplyBatch(st: State, batch: Batch) returns (r: State)
    ensures r == ApplyAll(st, batch)
  {
    r := st;
    for i := 0 to |batch|
      invariant r == ApplyAll(st, batch[..i])
    {
      assert batch[..i + 1][..i] == batch[..i];
      r := Apply(r, batch[i]);
    }
    assert batch[..|batch|] == batch;
  }
}
