/** The byte keys of the records: `tenant | tag | suffix`, with length-prefixed names. The
    store of `Store` is what a flat map over these keys holds for one tenant. */
module Keys {
  import opened Bytes
  import opened Merkle
  import opened Outcomes
  import opened Store

  const EntryTag: Byte := 0x17
  const SeqTag: Byte := 0x18
  const IdemTag: Byte := 0x19
  const FrontierTag: Byte := 0x1A
  const MetaTag: Byte := 0x1B
  const EdgeTag: Byte := 0x1C
  const OutTag: Byte := 0x1D
  const InTag: Byte := 0x1E
  const NodeTag: Byte := 0x1F

  datatype Key =
    | EntryKey(chain: Text, seqNo: int)
    | SeqKey(chain: Text)
    | IdemKey(chain: Text, token: Text)
    | FrontierKey(chain: Text)
    | MetaKey(chain: Text)
    | NodeKey(chain: Text, level: nat, index: nat)
    | EdgeKey(id: EdgeId)
    | OutKey(edge: Weighted)
    | InKey(edge: Weighted)

  predicate ShortId(id: EdgeId) {
    Short(id.graph) && Short(id.src) && Short(id.dst) && Short(id.etype)
  }

  /** Numbers within the source's widths, and names below 2^32 bytes. */
  predicate Fits(k: Key) {
    match k
    case EntryKey(c, s) => Short(c) && MinI64 <= s <= MaxI64
    case NodeKey(c, l, i) => Short(c) && l < 256 && i < 2 * SignBit
    case EdgeKey(id) => ShortId(id)
    case OutKey(e) => ShortId(e.id)
    case InKey(e) => ShortId(e.id)
    case _ => Short(k.chain)
  }

  function Tag(k: Key): Byte {
    match k
    case EntryKey(_, _) => EntryTag
    case SeqKey(_) => SeqTag
    case IdemKey(_, _) => IdemTag
    case FrontierKey(_) => FrontierTag
    case MetaKey(_) => MetaTag
    case NodeKey(_, _, _) => NodeTag
    case EdgeKey(_) => EdgeTag
    case OutKey(_) => OutTag
    case InKey(_) => InTag
  }

  function Suffix(k: Key): Text
    requires Fits(k)
  {
    match k
    case EntryKey(c, s) => Lp(c) + Be(AsU64(s), 8)
    case IdemKey(c, t) => Lp(c) + t
    case NodeKey(c, l, i) => Lp(c) + ([l] + Be(i, 8))
    case EdgeKey(id) => Lp(id.graph) + (Lp(id.src) + (Lp(id.dst) + Lp(id.etype)))
    case OutKey(e) => Lp(e.id.graph) + (Lp(e.id.src) + Tail(e.weight, e.id.dst, e.id.etype))
    case InKey(e) => Lp(e.id.graph) + (Lp(e.id.dst) + Tail(e.weight, e.id.src, e.id.etype))
    case _ => Lp(k.chain)
  }

  /** What follows the node in an adjacency key. */
  function Tail(weight: Weight, neighbour: Text, etype: Text): Text {
    WeightObe(weight) + (Lp(neighbour) + Lp(etype))
  }

  function Encode(tenant: Text, k: Key): Text
    requires Fits(k)
  {
    Lp(tenant) + ([Tag(k)] + Suffix(k))
  }

  // ---- Keys never collide ----

  lemma LpInjective(a: Text, b: Text)
    requires Short(a) && Short(b) && Lp(a) == Lp(b)
    ensures a == b
  {
    assert Lp(a) + [] == Lp(a) && Lp(b) + [] == Lp(b);
    LpPrefixFree(a, [], b, []);
  }

  lemma TailInjective(w: Weight, v: Text, t: Text, w': Weight, v': Text, t': Text)
    requires Short(v) && Short(t) && Short(v') && Short(t') && Tail(w, v, t) == Tail(w', v', t')
    ensures w == w' && v == v' && t == t'
  {
    hide Lp, WeightObe;
    FixedPrefix(WeightObe(w), Lp(v) + Lp(t), WeightObe(w'), Lp(v') + Lp(t'));
    LpPrefixFree(v, Lp(t), v', Lp(t'));
    LpInjective(t, t');
    ObeOrder(w, w');
  }

  lemma AsU64Injective(a: I64, b: I64)
    requires AsU64(a) == AsU64(b)
    ensures a == b
  {
  }

  lemma ChainSuffixInjective(k1: Key, k2: Key)
    requires Fits(k1) && Fits(k2) && Tag(k1) == Tag(k2) && Suffix(k1) == Suffix(k2)
    requires k1.EntryKey? || k1.IdemKey? || k1.NodeKey?
    ensures k1 == k2
  {
    hide Lp, Be;
    Pow256Values();
    match k1
    case EntryKey(c, s) =>
      LpPrefixFree(c, Be(AsU64(s), 8), k2.chain, Be(AsU64(k2.seqNo), 8));
      BeInjective(AsU64(s), AsU64(k2.seqNo), 8);
      AsU64Injective(s, k2.seqNo);
    case IdemKey(c, t) =>
      LpPrefixFree(c, t, k2.chain, k2.token);
    case NodeKey(c, l, i) =>
      LpPrefixFree(c, [l] + Be(i, 8), k2.chain, [k2.level] + Be(k2.index, 8));
      FixedPrefix([l], Be(i, 8), [k2.level], Be(k2.index, 8));
      BeInjective(i, k2.index, 8);
  }

  lemma EdgeSuffixInjective(a: EdgeId, b: EdgeId)
    requires ShortId(a) && ShortId(b) && Suffix(EdgeKey(a)) == Suffix(EdgeKey(b))
    ensures a == b
  {
    hide Lp;
    LpPrefixFree(a.graph, Lp(a.src) + (Lp(a.dst) + Lp(a.etype)), b.graph, Lp(b.src) + (Lp(b.dst) + Lp(b.etype)));
    LpPrefixFree(a.src, Lp(a.dst) + Lp(a.etype), b.src, Lp(b.dst) + Lp(b.etype));
    LpPrefixFree(a.dst, Lp(a.etype), b.dst, Lp(b.etype));
    LpInjective(a.etype, b.etype);
  }

  lemma AdjacencySuffixInjective(g: Text, n: Text, w: Weight, v: Text, t: Text,
                                 g': Text, n': Text, w': Weight, v': Text, t': Text)
    requires Short(g) && Short(n) && Short(v) && Short(t) && Short(g') && Short(n') && Short(v') && Short(t')
    requires Lp(g) + (Lp(n) + Tail(w, v, t)) == Lp(g') + (Lp(n') + Tail(w', v', t'))
    ensures g == g' && n == n' && w == w' && v == v' && t == t'
  {
    hide Lp, Tail;
    LpPrefixFree(g, Lp(n) + Tail(w, v, t), g', Lp(n') + Tail(w', v', t'));
    LpPrefixFree(n, Tail(w, v, t), n', Tail(w', v', t'));
    TailInjective(w, v, t, w', v', t');
  }

  lemma SuffixInjective(k1: Key, k2: Key)
    requires Fits(k1) && Fits(k2) && Tag(k1) == Tag(k2) && Suffix(k1) == Suffix(k2)
    ensures k1 == k2
  {
    hide Lp, Be, Tail;
    match k1
    case EntryKey(_, _) => ChainSuffixInjective(k1, k2);
    case IdemKey(_, _) => ChainSuffixInjective(k1, k2);
    case NodeKey(_, _, _) => ChainSuffixInjective(k1, k2);
    case EdgeKey(id) => EdgeSuffixInjective(id, k2.id);
    case OutKey(e) =>
      var f := k2.edge;
      AdjacencySuffixInjective(e.id.graph, e.id.src, e.weight, e.id.dst, e.id.etype,
                               f.id.graph, f.id.src, f.weight, f.id.dst, f.id.etype);
    case InKey(e) =>
      var f := k2.edge;
      AdjacencySuffixInjective(e.id.graph, e.id.dst, e.weight, e.id.src, e.id.etype,
                               f.id.graph, f.id.dst, f.weight, f.id.src, f.id.etype);
    case _ => LpInjective(k1.chain, k2.chain);
  }

  /** Different records, of any kinds and tenants, have different keys. */
  lemma KeysDistinct(tenant1: Text, k1: Key, tenant2: Text, k2: Key)
    requires Short(tenant1) && Short(tenant2) && Fits(k1) && Fits(k2)
    requires Encode(tenant1, k1) == Encode(tenant2, k2)
    ensures tenant1 == tenant2 && k1 == k2
  {
    hide Lp, Suffix, Tag;
    LpPrefixFree(tenant1, [Tag(k1)] + Suffix(k1), tenant2, [Tag(k2)] + Suffix(k2));
    FixedPrefix([Tag(k1)], Suffix(k1), [Tag(k2)], Suffix(k2));
    SuffixInjective(k1, k2);
  }

  /** The bytes of entry keys sort like the seqs read as unsigned numbers. So entry keys sort
      by seq exactly when the two seqs agree in sign. */
  lemma EntryKeyOrder(tenant: Text, chain: Text, a: I64, b: I64)
    requires Short(chain)
    ensures Less(Encode(tenant, EntryKey(chain, a)), Encode(tenant, EntryKey(chain, b))) <==> AsU64(a) < AsU64(b)
    ensures a != b ==>
      ((Less(Encode(tenant, EntryKey(chain, a)), Encode(tenant, EntryKey(chain, b))) <==> a < b)
       <==> (a < 0 <==> b < 0))
  {
    hide Lp, Be;
    Pow256Values();
    var p := Lp(tenant) + ([EntryTag] + Lp(chain));
    Regroup(Lp(tenant), EntryTag, Lp(chain), Be(AsU64(a), 8));
    Regroup(Lp(tenant), EntryTag, Lp(chain), Be(AsU64(b), 8));
    LessAfterPrefix(p, Be(AsU64(a), 8), Be(AsU64(b), 8));
    BeOrder(AsU64(a), AsU64(b), 8);
  }

  lemma Regroup(a: Text, tag: Byte, b: Text, c: Text)
    ensures a + ([tag] + (b + c)) == (a + ([tag] + b)) + c
  {
  }

  // ---- The keys of one graph ----

  predicate IsGraphKey(k: Key) {
    k.EdgeKey? || k.OutKey? || k.InKey?
  }

  function GraphOf(k: Key): Text
    requires IsGraphKey(k)
  {
    match k
    case EdgeKey(id) => id.graph
    case OutKey(e) => e.id.graph
    case InKey(e) => e.id.graph
  }

  /** The prefix of all keys of a graph under one of its three tags. */
  function GraphPrefix(tenant: Text, tag: Byte, graph: Text): Text {
    Lp(tenant) + ([tag] + Lp(graph))
  }

  lemma SuffixStartsWithGraph(k: Key) returns (rest: Text)
    requires Fits(k) && IsGraphKey(k)
    ensures Suffix(k) == Lp(GraphOf(k)) + rest
  {
    hide Lp, Tail;
    rest := match k
      case EdgeKey(id) => Lp(id.src) + (Lp(id.dst) + Lp(id.etype))
      case OutKey(e) => Lp(e.id.src) + Tail(e.weight, e.id.dst, e.id.etype)
      case InKey(e) => Lp(e.id.dst) + Tail(e.weight, e.id.src, e.id.etype);
  }

  /** A key of the graph tags starts with the prefix of a graph exactly if it is of that graph
      and tag: graph `g` never matches graph `gg`. */
  lemma GraphPrefixExact(tenant: Text, tag: Byte, graph: Text, k: Key)
    requires Short(tenant) && Short(graph) && Fits(k) && IsGraphKey(k)
    ensures GraphPrefix(tenant, tag, graph) <= Encode(tenant, k) <==> tag == Tag(k) && graph == GraphOf(k)
  {
    hide Lp, Suffix, Tag;
    var rest := SuffixStartsWithGraph(k);
    var key, prefix := Encode(tenant, k), GraphPrefix(tenant, tag, graph);
    Regroup(Lp(tenant), Tag(k), Lp(GraphOf(k)), rest);
    assert key == (Lp(tenant) + ([Tag(k)] + Lp(GraphOf(k)))) + rest;
    if prefix <= key {
      var after := key[|prefix|..];
      assert key == prefix + after;
      Regroup(Lp(tenant), tag, Lp(graph), after);
      FixedPrefix(Lp(tenant), [tag] + (Lp(graph) + after), Lp(tenant), [Tag(k)] + (Lp(GraphOf(k)) + rest));
      FixedPrefix([tag], Lp(graph) + after, [Tag(k)], Lp(GraphOf(k)) + rest);
      LpPrefixFree(graph, after, GraphOf(k), rest);
    }
  }

  // ---- The store as a flat map ----

  /** The decoded value of a record; adjacency keys carry all their data in the key. */
  datatype Value =
    | MetaValue(verified: bool)
    | HeadValue(head: int)
    | EntryValue(entry: EntryRecord)
    | IdemValue(idem: IdemRecord)
    | FrontierValue(frontier: FrontierRecord)
    | NodeValue(hash: Digest)
    | WeightValue(weight: Weight)
    | Present

  function Lookup(st: State, k: Key): Option<Value> {
    match k
    case EntryKey(c, s) => if (c, s) in st.entries then Some(EntryValue(st.entries[(c, s)])) else None
    case SeqKey(c) => if c in st.heads then Some(HeadValue(st.heads[c])) else None
    case IdemKey(c, t) => if (c, t) in st.idems then Some(IdemValue(st.idems[(c, t)])) else None
    case FrontierKey(c) => if c in st.frontiers then Some(FrontierValue(st.frontiers[c])) else None
    case MetaKey(c) => if c in st.metas then Some(MetaValue(st.metas[c])) else None
    case NodeKey(c, l, i) => if (c, l, i) in st.nodes then Some(NodeValue(st.nodes[(c, l, i)])) else None
    case EdgeKey(id) => if id in st.edges then Some(WeightValue(st.edges[id])) else None
    case OutKey(e) => if e in st.outs then Some(Present) else None
    case InKey(e) => if e in st.ins then Some(Present) else None
  }

  function KeyOf(op: Op): Key {
    match op
    case PutMeta(c, _) => MetaKey(c)
    case PutHead(c, _) => SeqKey(c)
    case PutEntry(c, s, _) => EntryKey(c, s)
    case DeleteEntry(c, s) => EntryKey(c, s)
    case PutIdem(c, t, _) => IdemKey(c, t)
    case PutFrontier(c, _) => FrontierKey(c)
    case PutNode(c, l, i, _) => NodeKey(c, l, i)
    case PutEdge(id, _) => EdgeKey(id)
    case DeleteEdge(id) => EdgeKey(id)
    case PutOut(e) => OutKey(e)
    case DeleteOut(e) => OutKey(e)
    case PutIn(e) => InKey(e)
    case DeleteIn(e) => InKey(e)
  }

  /** What an operation writes; nothing for a delete. */
  function ValueOf(op: Op): Option<Value> {
    match op
    case PutMeta(_, v) => Some(MetaValue(v))
    case PutHead(_, n) => Some(HeadValue(n))
    case PutEntry(_, _, r) => Some(EntryValue(r))
    case PutIdem(_, _, r) => Some(IdemValue(r))
    case PutFrontier(_, f) => Some(FrontierValue(f))
    case PutNode(_, _, _, d) => Some(NodeValue(d))
    case PutEdge(_, w) => Some(WeightValue(w))
    case PutOut(_) => Some(Present)
    case PutIn(_) => Some(Present)
    case _ => None
  }

  predicate IsGraphOp(op: Op) {
    op.PutEdge? || op.DeleteEdge? || op.PutOut? || op.DeleteOut? || op.PutIn? || op.DeleteIn?
  }

  lemma ApplyGraphKey(st: State, op: Op, k: Key)
    requires IsGraphOp(op)
    ensures Lookup(Apply(st, op), k) == if k == KeyOf(op) then ValueOf(op) else Lookup(st, k)
  {
    match op
    case PutEdge(_, _) =>
    case DeleteEdge(_) =>
    case PutOut(_) =>
    case DeleteOut(_) =>
    case PutIn(_) =>
    case DeleteIn(_) =>
  }

  lemma ApplyChainKey(st: State, op: Op, k: Key)
    requires !IsGraphOp(op)
    ensures Lookup(Apply(st, op), k) == if k == KeyOf(op) then ValueOf(op) else Lookup(st, k)
  {
    match op
    case PutMeta(_, _) =>
    case PutHead(_, _) =>
    case PutEntry(_, _, _) =>
    case DeleteEntry(_, _) =>
    case PutIdem(_, _, _) =>
    case PutFrontier(_, _) =>
    case PutNode(_, _, _, _) =>
  }

  /** Each operation writes its own key and no other. */
  lemma ApplyIsOneKey(st: State, op: Op, k: Key)
    ensures Lookup(Apply(st, op), k) == if k == KeyOf(op) then ValueOf(op) else Lookup(st, k)
  {
    hide Lookup, Apply, KeyOf, ValueOf;
    if IsGraphOp(op) {
      ApplyGraphKey(st, op, k);
    } else {
      ApplyChainKey(st, op, k);
    }
  }

  /** The ordered key-value store: all tenants and all subsystems share it. */
  type Flat = map<Text, Value>

  function Get(m: Flat, key: Text): Option<Value> {
    if key in m then Some(m[key]) else None
  }

  function Write(m: Flat, key: Text, value: Option<Value>): Flat {
    match value
    case None => m - {key}
    case Some(v) => m[key := v]
  }

  function WriteOps(m: Flat, tenant: Text, batch: Batch): Flat
    requires forall op :: op in batch ==> Fits(KeyOf(op))
    decreases |batch|
  {
    if batch == [] then m
    else
      var n := |batch| - 1;
      Write(WriteOps(m, tenant, batch[..n]), Encode(tenant, KeyOf(batch[n])), ValueOf(batch[n]))
  }

  predicate IsEvidenceTag(tag: Byte) {
    EntryTag <= tag <= NodeTag
  }

  /** Under the evidence tags of a tenant there are only keys of records. */
  ghost predicate WellKeyed(m: Flat, tenant: Text) {
    forall b, tag: Byte :: b in m && IsEvidenceTag(tag) && TagPrefix(tenant, tag) <= b ==> IsKey(tenant, tag, b)
  }

  function TagPrefix(tenant: Text, tag: Byte): Text {
    Lp(tenant) + [tag]
  }

  ghost predicate IsKey(tenant: Text, tag: Byte, b: Text) {
    exists k: Key :: Fits(k) && Tag(k) == tag && Encode(tenant, k) == b
  }

  /** The flat map holds the state of the tenant: the same records and no others. */
  ghost predicate Holds(m: Flat, tenant: Text, st: State) {
    && WellKeyed(m, tenant)
    && (forall k: Key {:trigger Fits(k)} :: if Fits(k) then Get(m, Encode(tenant, k)) == Lookup(st, k) else Lookup(st, k) == None)
  }

  lemma TagPrefixOf(tenant1: Text, tag: Byte, tenant2: Text, k: Key)
    requires Short(tenant1) && Short(tenant2) && Fits(k) && TagPrefix(tenant1, tag) <= Encode(tenant2, k)
    ensures tenant1 == tenant2 && tag == Tag(k)
  {
    hide Lp, Suffix, Tag;
    var b := Encode(tenant2, k);
    var p := TagPrefix(tenant1, tag);
    var rest := b[|p|..];
    assert b == p + rest;
    Associate(Lp(tenant1), [tag], rest);
    LpPrefixFree(tenant1, [tag] + rest, tenant2, [Tag(k)] + Suffix(k));
    FixedPrefix([tag], rest, [Tag(k)], Suffix(k));
  }

  lemma WriteWellKeyed(m: Flat, tenant: Text, writer: Text, k: Key, v: Option<Value>)
    requires Short(tenant) && Short(writer) && Fits(k) && WellKeyed(m, tenant)
    ensures WellKeyed(Write(m, Encode(writer, k), v), tenant)
  {
    hide Encode, TagPrefix, Tag;
    var key := Encode(writer, k);
    var m' := Write(m, key, v);
    forall b, tag: Byte | b in m' && IsEvidenceTag(tag) && TagPrefix(tenant, tag) <= b
      ensures IsKey(tenant, tag, b)
    {
      if b == key {
        TagPrefixOf(tenant, tag, writer, k);
      } else {
        assert b in m;
      }
    }
  }

  /** Writing an operation's key in the flat map is applying it to the state of its tenant,
      and leaves the states of the other tenants as they are. */
  lemma WriteHolds(m: Flat, writer: Text, op: Op, tenant: Text, st: State)
    requires Short(tenant) && Short(writer) && Fits(KeyOf(op)) && Holds(m, tenant, st)
    ensures Holds(Write(m, Encode(writer, KeyOf(op)), ValueOf(op)), tenant, if writer == tenant then Apply(st, op) else st)
  {
    hide Encode, Tag, Lookup, KeyOf, ValueOf, Apply, WellKeyed, Fits;
    var key := Encode(writer, KeyOf(op));
    var m' := Write(m, key, ValueOf(op));
    var after := if writer == tenant then Apply(st, op) else st;
    WriteWellKeyed(m, tenant, writer, KeyOf(op), ValueOf(op));
    forall k: Key
      ensures if Fits(k) then Get(m', Encode(tenant, k)) == Lookup(after, k) else Lookup(after, k) == None
    {
      ApplyIsOneKey(st, op, k);
      if Fits(k) && Encode(tenant, k) == key {
        KeysDistinct(tenant, k, writer, KeyOf(op));
      }
    }
  }

  /** A committed batch refines: flat map and state stay in step, for the writing tenant and
      for every other. */
  lemma {:induction false} BatchHolds(m: Flat, writer: Text, batch: Batch, tenant: Text, st: State)
    requires Short(tenant) && Short(writer) && (forall op :: op in batch ==> Fits(KeyOf(op))) && Holds(m, tenant, st)
    ensures Holds(WriteOps(m, writer, batch), tenant, if writer == tenant then ApplyAll(st, batch) else st)
    decreases |batch|
  {
    hide Holds, Encode, KeyOf, ValueOf, Apply, Fits;
    if batch != [] {
      var n := |batch| - 1;
      BatchHolds(m, writer, batch[..n], tenant, st);
      WriteHolds(WriteOps(m, writer, batch[..n]), writer, batch[n], tenant,
                 if writer == tenant then ApplyAll(st, batch[..n]) else st);
    }
  }

  lemma EmptyHolds(tenant: Text)
    ensures Holds(map[], tenant, Empty)
  {
  }

  // ---- A flat map holds one state ----

  lemma SameLookups(a: State, b: State)
    requires forall k: Key :: Lookup(a, k) == Lookup(b, k)
    ensures a == b
  {
    SameChainRecords(a, b);
    SameGraphRecords(a, b);
  }

  lemma SameMap<K, V>(a: map<K, V>, b: map<K, V>)
    requires forall k :: SameAt(a, b, k)
    ensures a == b
  {
    forall k
      ensures k in a <==> k in b
      ensures k in a ==> a[k] == b[k]
    {
      assert SameAt(a, b, k);
    }
  }

  ghost predicate SameAt<K, V>(a: map<K, V>, b: map<K, V>, k: K) {
    (k in a <==> k in b) && (k in a ==> a[k] == b[k])
  }

  lemma SameChainRecords(a: State, b: State)
    requires forall k: Key :: Lookup(a, k) == Lookup(b, k)
    ensures a.metas == b.metas && a.heads == b.heads && a.entries == b.entries
    ensures a.idems == b.idems && a.frontiers == b.frontiers && a.nodes == b.nodes
  {
    forall c: Text
      ensures SameAt(a.metas, b.metas, c) && SameAt(a.heads, b.heads, c) && SameAt(a.frontiers, b.frontiers, c)
    {
      assert Lookup(a, MetaKey(c)) == Lookup(b, MetaKey(c));
      assert Lookup(a, SeqKey(c)) == Lookup(b, SeqKey(c));
      assert Lookup(a, FrontierKey(c)) == Lookup(b, FrontierKey(c));
    }
    forall e: (Text, int)
      ensures SameAt(a.entries, b.entries, e)
    {
      assert Lookup(a, EntryKey(e.0, e.1)) == Lookup(b, EntryKey(e.0, e.1));
    }
    forall e: (Text, Text)
      ensures SameAt(a.idems, b.idems, e)
    {
      assert Lookup(a, IdemKey(e.0, e.1)) == Lookup(b, IdemKey(e.0, e.1));
    }
    forall e: (Text, nat, nat)
      ensures SameAt(a.nodes, b.nodes, e)
    {
      assert Lookup(a, NodeKey(e.0, e.1, e.2)) == Lookup(b, NodeKey(e.0, e.1, e.2));
    }
    SameMap(a.metas, b.metas);
    SameMap(a.heads, b.heads);
    SameMap(a.frontiers, b.frontiers);
    SameMap(a.entries, b.entries);
    SameMap(a.idems, b.idems);
    SameMap(a.nodes, b.nodes);
  }

  lemma SameGraphRecords(a: State, b: State)
    requires forall k: Key :: Lookup(a, k) == Lookup(b, k)
    ensures a.edges == b.edges && a.outs == b.outs && a.ins == b.ins
  {
    forall id: EdgeId
      ensures SameAt(a.edges, b.edges, id)
    {
      assert Lookup(a, EdgeKey(id)) == Lookup(b, EdgeKey(id));
    }
    SameMap(a.edges, b.edges);
    forall e: Weighted
      ensures (e in a.outs <==> e in b.outs) && (e in a.ins <==> e in b.ins)
    {
      assert Lookup(a, OutKey(e)) == Lookup(b, OutKey(e));
      assert Lookup(a, InKey(e)) == Lookup(b, InKey(e));
    }
  }

  /** The bytes of a tenant determine its state. */
  lemma HoldsOne(m: Flat, tenant: Text, a: State, b: State)
    requires Holds(m, tenant, a) && Holds(m, tenant, b)
    ensures a == b
  {
    hide Lookup, Encode, Fits, WellKeyed;
    forall k: Key
      ensures Lookup(a, k) == Lookup(b, k)
    {
      assert Fits(k) || !Fits(k);
    }
    SameLookups(a, b);
  }

  // ---- Many tenants over one map ----

  /** Widths that can be encoded, in every name and number of the log. */
  ghost predicate LogFits(log: seq<(Text, Batch)>) {
    forall i :: 0 <= i < |log| ==> Short(log[i].0) && forall op :: op in log[i].1 ==> Fits(KeyOf(op))
  }

  lemma LogFitsPrefix(log: seq<(Text, Batch)>, n: nat)
    requires LogFits(log) && n <= |log|
    ensures LogFits(log[..n])
  {
    hide Fits, KeyOf;
  }

  /** The map after batches of several tenants, in the order they were committed. */
  function FlatOf(log: seq<(Text, Batch)>): Flat
    requires LogFits(log)
    decreases |log|
  {
    if log == [] then map[]
    else
      var n := |log| - 1;
      LogFitsPrefix(log, n);
      WriteOps(FlatOf(log[..n]), log[n].0, log[n].1)
  }

  /** The batches of one tenant among them. */
  function OwnBatches(log: seq<(Text, Batch)>, tenant: Text): seq<Batch>
    decreases |log|
  {
    if log == [] then []
    else
      var n := |log| - 1;
      OwnBatches(log[..n], tenant) + (if log[n].0 == tenant then [log[n].1] else [])
  }

  /** However the batches of the tenants interleave on the shared map, it holds for each
      tenant the state its own batches lead to, as if there were no others. */
  lemma {:induction false} EachTenantAlone(log: seq<(Text, Batch)>, tenant: Text)
    requires Short(tenant) && LogFits(log)
    ensures Holds(FlatOf(log), tenant, Replay(Empty, OwnBatches(log, tenant)))
    decreases |log|
  {
    hide Holds, Fits, KeyOf, WriteOps, ApplyAll;
    if log == [] {
      EmptyHolds(tenant);
    } else {
      var n := |log| - 1;
      LogFitsPrefix(log, n);
      EachTenantAlone(log[..n], tenant);
      var own := OwnBatches(log[..n], tenant);
      BatchHolds(FlatOf(log[..n]), log[n].0, log[n].1, tenant, Replay(Empty, own));
      assert (own + [log[n].1])[..|own|] == own && own + [] == own;
    }
  }
}
