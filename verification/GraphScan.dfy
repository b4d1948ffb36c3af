/** Dropping a graph off the ordered byte keys: three prefix scans, and one batch that deletes
    every key they find. */
module GraphScan {
  import opened Adjacency
  import opened Bytes
  import opened ChainRuns
  import opened Graph
  import opened Keys
  import opened Outcomes
  import opened Store

  const GraphTags: seq<Byte> := [EdgeTag, OutTag, InTag]

  /** A key under the prefix of the graph for one of the first `n` tags. */
  predicate UnderTags(tenant: Text, graph: Text, n: nat, b: Text)
    requires n <= 3
  {
    exists i :: 0 <= i < n && GraphPrefix(tenant, GraphTags[i], graph) <= b
  }

  ghost predicate IsDrop(m: Flat, tenant: Text, graph: Text, batch: seq<Text>) {
    forall b :: b in batch <==> b in m && UnderTags(tenant, graph, 3, b)
  }

  method ScanPrefix(m: Flat, prefix: Text) returns (keys: seq<Text>)
    ensures Ascending(keys) && forall b :: b in keys <==> b in m && prefix <= b
  {
    hide Ascending, PrefixUpperBound, InRange, ScanKeys;
    var end := ComputePrefixUpperBound(prefix);
    keys := ScanRange(m, prefix, end);
    forall b
      ensures b in keys <==> b in m && prefix <= b
    {
      RangeIsPrefix(b, prefix);
    }
  }

  /** The deletes of a drop and the number of canonical keys among them. */
  method DropBatch(m: Flat, tenant: Text, graph: Text) returns (batch: seq<Text>, edges: nat)
    ensures IsDrop(m, tenant, graph, batch)
    ensures edges == |set b | b in m && GraphPrefix(tenant, EdgeTag, graph) <= b|
  {
    hide Ascending, GraphPrefix, UnderTags;
    batch, edges := [], 0;
    NoTags(m, tenant, graph);
    for t := 0 to 3
      invariant forall b :: b in batch <==> b in m && UnderTags(tenant, graph, t, b)
      invariant t > 0 ==> edges == |set b | b in m && GraphPrefix(tenant, EdgeTag, graph) <= b|
      invariant t == 0 ==> edges == 0
    {
      ghost var was, counted := batch, edges;
      var prefix := GraphPrefix(tenant, GraphTags[t], graph);
      var keys := ScanPrefix(m, prefix);
      for i := 0 to |keys|
        invariant batch == was + keys[..i] && edges == if t == 0 then i else counted
      {
        assert keys[..i + 1] == keys[..i] + [keys[i]];
        if GraphTags[t] == EdgeTag {
          edges := edges + 1;
        }
        batch := batch + [keys[i]];
      }
      AscendingCount(keys, set b | b in m && prefix <= b);
      assert keys[..|keys|] == keys;
      TagScanned(m, tenant, graph, t, was, keys);
    }
  }

  lemma NoTags(m: Flat, tenant: Text, graph: Text)
    ensures forall b :: !(b in m && UnderTags(tenant, graph, 0, b))
  {
  }

  /** The keys of the tags so far, and those of one more. */
  lemma TagScanned(m: Flat, tenant: Text, graph: Text, t: nat, was: seq<Text>, keys: seq<Text>)
    requires t < 3 && forall b :: b in was <==> b in m && UnderTags(tenant, graph, t, b)
    requires forall b :: b in keys <==> b in m && GraphPrefix(tenant, GraphTags[t], graph) <= b
    ensures forall b :: b in was + keys <==> b in m && UnderTags(tenant, graph, t + 1, b)
  {
    hide GraphPrefix, UnderTags;
    forall b
      ensures b in was + keys <==> b in m && UnderTags(tenant, graph, t + 1, b)
    {
      OneMoreTag(tenant, graph, t, b);
      assert b in was + keys <==> b in was || b in keys;
    }
  }

  lemma OneMoreTag(tenant: Text, graph: Text, t: nat, b: Text)
    requires t < 3
    ensures UnderTags(tenant, graph, t + 1, b) <==> UnderTags(tenant, graph, t, b) || GraphPrefix(tenant, GraphTags[t], graph) <= b
  {
  }

  lemma {:induction false} AscendingCount(keys: seq<Text>, texts: set<Text>)
    requires Ascending(keys) && forall b :: b in keys <==> b in texts
    ensures |texts| == |keys|
    decreases |keys|
  {
    hide Less;
    if keys == [] {
      assert texts == {};
    } else {
      var n := |keys| - 1;
      var last := keys[n];
      assert last !in keys[..n] by {
        if last in keys[..n] {
          var i :| 0 <= i < n && keys[i] == last;
          LessIrreflexive(last);
        }
      }
      assert forall b :: b in keys[..n] <==> b in texts - {last};
      AscendingCount(keys[..n], texts - {last});
    }
  }

  // ---- What is dropped ----

  /** The scans find the keys of the records of this graph of this tenant, and of no other. */
  lemma UnderTagsExactly(tenant: Text, graph: Text, owner: Text, k: Key)
    requires Short(tenant) && Short(graph) && Short(owner) && Fits(k)
    ensures UnderTags(tenant, graph, 3, Encode(owner, k)) <==> owner == tenant && IsGraphKey(k) && GraphOf(k) == graph
  {
    hide Encode, GraphPrefix, Tag, GraphOf, Fits;
    var b := Encode(owner, k);
    if i :| 0 <= i < 3 && GraphPrefix(tenant, GraphTags[i], graph) <= b {
      GraphUnderTag(tenant, GraphTags[i], graph, b);
      TagPrefixOf(tenant, GraphTags[i], owner, k);
      GraphTagged(k, i);
      GraphPrefixExact(tenant, GraphTags[i], graph, k);
    }
    if owner == tenant && IsGraphKey(k) && GraphOf(k) == graph {
      var i := GraphTagOf(k);
      GraphPrefixExact(tenant, GraphTags[i], graph, k);
    }
  }

  lemma GraphUnderTag(tenant: Text, tag: Byte, graph: Text, b: Text)
    requires GraphPrefix(tenant, tag, graph) <= b
    ensures TagPrefix(tenant, tag) <= b
  {
    hide Lp;
    Associate(Lp(tenant), [tag], Lp(graph));
  }

  lemma GraphTagged(k: Key, i: nat)
    requires i < 3 && Tag(k) == GraphTags[i]
    ensures IsGraphKey(k)
  {
  }

  lemma GraphTagOf(k: Key) returns (i: nat)
    requires IsGraphKey(k)
    ensures i < 3 && Tag(k) == GraphTags[i]
  {
    i := if k.EdgeKey? then 0 else if k.OutKey? then 1 else 2;
  }

  lemma DroppedLookup(st: State, graph: Text, k: Key)
    ensures Lookup(Dropped(st, graph), k) == if IsGraphKey(k) && GraphOf(k) == graph then None else Lookup(st, k)
  {
  }

  /** Deleting those keys drops the graph from the state of the tenant and leaves the state of
      every other tenant as it is. */
  lemma DropHolds(m: Flat, tenant: Text, graph: Text, batch: seq<Text>, owner: Text, st: State)
    requires Short(tenant) && Short(graph) && Short(owner) && Holds(m, owner, st) && IsDrop(m, tenant, graph, batch)
    ensures Holds(m - (set b | b in batch), owner, if owner == tenant then Dropped(st, graph) else st)
  {
    hide Encode, Lookup, Fits, UnderTags, Dropped, IsGraphKey, GraphOf, IsKey, TagPrefix;
    var m' := m - (set b | b in batch);
    var after := if owner == tenant then Dropped(st, graph) else st;
    assert WellKeyed(m', owner);
    forall k: Key
      ensures if Fits(k) then Get(m', Encode(owner, k)) == Lookup(after, k) else Lookup(after, k) == None
    {
      DroppedLookup(st, graph, k);
      if Fits(k) {
        UnderTagsExactly(tenant, graph, owner, k);
      }
    }
  }

  // ---- The count ----

  lemma {:induction false} DistinctKeys(tenant: Text, ids: set<EdgeId>, keys: set<Text>)
    requires Short(tenant) && forall id :: id in ids ==> ShortId(id)
    requires keys == set id | id in ids :: Encode(tenant, EdgeKey(id))
    ensures |keys| == |ids|
    decreases ids
  {
    hide Encode, ShortId;
    if ids != {} {
      var id :| id in ids;
      var rest := set e | e in ids - {id} :: Encode(tenant, EdgeKey(e));
      DistinctKeys(tenant, ids - {id}, rest);
      var b := Encode(tenant, EdgeKey(id));
      if b in rest {
        var e :| e in ids - {id} && Encode(tenant, EdgeKey(e)) == b;
        KeysDistinct(tenant, EdgeKey(id), tenant, EdgeKey(e));
      }
      assert keys == rest + {b};
    }
  }

  lemma CanonicalKeys(m: Flat, tenant: Text, graph: Text, st: State)
    requires Short(tenant) && Short(graph) && Holds(m, tenant, st)
    ensures |set b | b in m && GraphPrefix(tenant, EdgeTag, graph) <= b| == |st.edges| - |OtherGraphs(st.edges, graph)|
  {
    hide Encode, Holds, GraphPrefix;
    var ids := set id | id in st.edges && id.graph == graph;
    var found := set b | b in m && GraphPrefix(tenant, EdgeTag, graph) <= b;
    forall id | id in st.edges
      ensures ShortId(id) && Encode(tenant, EdgeKey(id)) in m
      ensures GraphPrefix(tenant, EdgeTag, graph) <= Encode(tenant, EdgeKey(id)) <==> id.graph == graph
    {
      StoredEdge(m, tenant, st, id);
      GraphPrefixExact(tenant, EdgeTag, graph, EdgeKey(id));
    }
    var keys := set id | id in ids :: Encode(tenant, EdgeKey(id));
    forall b | b in found
      ensures b in keys
    {
      var id := CanonicalKey(m, tenant, graph, st, b);
    }
    assert keys == found;
    DistinctKeys(tenant, ids, keys);
    OtherGraphsCount(st.edges, graph, ids);
  }

  lemma StoredEdge(m: Flat, tenant: Text, st: State, id: EdgeId)
    requires Holds(m, tenant, st) && id in st.edges
    ensures ShortId(id) && Encode(tenant, EdgeKey(id)) in m
  {
    hide Encode, WellKeyed;
    assert Lookup(st, EdgeKey(id)).Some?;
    assert Fits(EdgeKey(id));
  }

  lemma CanonicalKey(m: Flat, tenant: Text, graph: Text, st: State, b: Text) returns (id: EdgeId)
    requires Short(tenant) && Short(graph) && Holds(m, tenant, st) && b in m && GraphPrefix(tenant, EdgeTag, graph) <= b
    ensures id in st.edges && id.graph == graph && ShortId(id) && b == Encode(tenant, EdgeKey(id))
  {
    hide Encode, Holds;
    var k := KeyUnderTag(m, tenant, st, EdgeTag, Lp(graph), b);
    id := k.id;
    GraphPrefixExact(tenant, EdgeTag, graph, k);
  }

  // ---- The operation ----

  function GraphKeys(st: State): set<Key> {
    (set id | id in st.edges :: EdgeKey(id)) + (set e | e in st.outs :: OutKey(e)) + (set e | e in st.ins :: InKey(e))
  }

  function DeleteOf(k: Key): (op: Op)
    requires IsGraphKey(k)
    ensures KeyOf(op) == k && ValueOf(op) == None
  {
    match k
    case EdgeKey(id) => DeleteEdge(id)
    case OutKey(e) => DeleteOut(e)
    case InKey(e) => DeleteIn(e)
  }

  /** A batch deletes the records behind byte keys, one by one. */
  ghost predicate DeletesAll(tenant: Text, keys: seq<Text>, batch: Batch) {
    && |batch| == |keys|
    && forall i :: 0 <= i < |keys| ==>
         Fits(KeyOf(batch[i])) && ValueOf(batch[i]) == None && Encode(tenant, KeyOf(batch[i])) == keys[i]
  }

  lemma FoundKey(m: Flat, tenant: Text, graph: Text, st: State, b: Text) returns (k: Key)
    requires Short(tenant) && Short(graph) && Holds(m, tenant, st) && b in m && UnderTags(tenant, graph, 3, b)
    ensures Fits(k) && k in GraphKeys(st) && Encode(tenant, k) == b
  {
    hide Encode, Holds, Fits, Lp;
    var i :| 0 <= i < 3 && GraphPrefix(tenant, GraphTags[i], graph) <= b;
    k := KeyUnderTag(m, tenant, st, GraphTags[i], Lp(graph), b);
    GraphTagged(k, i);
  }

  lemma AllGraphKeys(st: State)
    ensures forall k :: k in GraphKeys(st) ==> IsGraphKey(k)
  {
  }

  lemma DeletesNone(tenant: Text)
    ensures DeletesAll(tenant, [], [])
  {
  }

  lemma DeletesSnoc(tenant: Text, keys: seq<Text>, batch: Batch, k: Key)
    requires DeletesAll(tenant, keys, batch) && Fits(k) && IsGraphKey(k)
    ensures DeletesAll(tenant, keys + [Encode(tenant, k)], batch + [DeleteOf(k)])
  {
    hide Encode, Fits, KeyOf, ValueOf;
  }

  /** The operations that delete the records of the keys a drop has found. */
  method DropOps(m: Flat, tenant: Text, graph: Text, st: State, keys: seq<Text>) returns (batch: Batch)
    requires Short(tenant) && Short(graph) && Holds(m, tenant, st) && IsDrop(m, tenant, graph, keys)
    ensures DeletesAll(tenant, keys, batch)
  {
    hide Encode, Holds, Fits, UnderTags, DeletesAll, GraphKeys;
    AllGraphKeys(st);
    DeletesNone(tenant);
    forall a, b | a in GraphKeys(st) && Fits(a) && b in GraphKeys(st) && Fits(b) && Encode(tenant, a) == Encode(tenant, b)
      ensures a == b
    {
      KeysDistinct(tenant, a, tenant, b);
    }
    var records := map k | k in GraphKeys(st) && Fits(k) :: Encode(tenant, k) := k;
    batch := [];
    for i := 0 to |keys|
      invariant DeletesAll(tenant, keys[..i], batch)
    {
      assert keys[i] in keys;
      ghost var k := FoundKey(m, tenant, graph, st, keys[i]);
      assert Encode(tenant, k) in records;
      DeletesSnoc(tenant, keys[..i], batch, k);
      batch := batch + [DeleteOf(records[keys[i]])];
      assert keys[..i + 1] == keys[..i] + [keys[i]];
    }
    assert keys[..|keys|] == keys;
  }

  lemma DeletesFit(tenant: Text, keys: seq<Text>, batch: Batch)
    requires DeletesAll(tenant, keys, batch)
    ensures forall op :: op in batch ==> Fits(KeyOf(op))
  {
    hide Encode, Fits;
  }

  lemma {:induction false} DeletedKeys(m: Flat, tenant: Text, keys: seq<Text>, batch: Batch)
    requires DeletesAll(tenant, keys, batch) && forall op :: op in batch ==> Fits(KeyOf(op))
    ensures WriteOps(m, tenant, batch) == m - (set b | b in keys)
    decreases |batch|
  {
    hide Encode, Fits, KeyOf, ValueOf;
    if batch == [] {
      assert m - (set b | b in keys) == m;
    } else {
      var n := |batch| - 1;
      DeletedKeys(m, tenant, keys[..n], batch[..n]);
      assert keys == keys[..n] + [keys[n]];
      assert m - (set b | b in keys[..n]) - {keys[n]} == m - (set b | b in keys);
    }
  }

  /** The batch of a drop, on the flat map and on the state of the tenant. */
  lemma DropBatchEffect(m: Flat, tenant: Text, graph: Text, st: State, keys: seq<Text>, batch: Batch)
    requires Short(tenant) && Short(graph) && Holds(m, tenant, st)
    requires IsDrop(m, tenant, graph, keys) && DeletesAll(tenant, keys, batch)
    ensures ApplyAll(st, batch) == Dropped(st, graph)
    ensures Holds(m - (set b | b in keys), tenant, Dropped(st, graph))
  {
    hide Holds, IsDrop, Dropped, ApplyAll, Fits, Encode, KeyOf, ValueOf, WriteOps;
    DeletesFit(tenant, keys, batch);
    DeletedKeys(m, tenant, keys, batch);
    BatchHolds(m, tenant, batch, tenant, st);
    DropHolds(m, tenant, graph, keys, tenant, st);
    HoldsOne(m - (set b | b in keys), tenant, ApplyAll(st, batch), Dropped(st, graph));
  }

  /** Drops a graph from the database of one tenant, whose records `m` holds: the tenant loses
      exactly the edges of the graph, the answer is their number, and no other tenant is touched.
      A drop that finds nothing writes nothing. */
  method DropGraph(db: Database, m: Flat, tenant: Text, graph: Text)
    returns (r: Result<nat, EvidenceError>, after: Flat, batch: Batch)
    requires db.Valid() && Short(tenant) && Short(graph) && Holds(m, tenant, db.View())
    modifies db
    ensures db.Valid() && Wrote(old(db.log), old(db.durable), db.log, db.durable, batch)
    ensures if !db.writer then r == Err(NotWriter) && batch == [] && after == m
            else
              && db.View() == Dropped(old(db.View()), graph) == ApplyAll(old(db.View()), batch)
              && Holds(after, tenant, db.View())
              && r == Ok(|old(db.View()).edges| - |db.View().edges|)
    ensures forall owner, other :: Short(owner) && owner != tenant && Holds(m, owner, other) ==> Holds(after, owner, other)
  {
    hide Holds, IsDrop, GraphPrefix, DeletesAll, Replay, ApplyAll, Dropped;
    if !db.writer {
      return Err(NotWriter), m, [];
    }
    var st := db.Read();
    var keys, edges := DropBatch(m, tenant, graph);
    batch := DropOps(m, tenant, graph, st, keys);
    DropBatchEffect(m, tenant, graph, st, keys, batch);
    after := m - (set b | b in keys);
    CanonicalKeys(m, tenant, graph, st);
    DroppedEdges(st, graph);
    forall owner, other | Short(owner) && owner != tenant && Holds(m, owner, other)
      ensures Holds(after, owner, other)
    {
      DropHolds(m, tenant, graph, keys, owner, other);
    }
    Graph.Write(db, batch);
    r := Ok(edges);
  }

  lemma DroppedEdges(st: State, graph: Text)
    ensures Dropped(st, graph).edges == OtherGraphs(st.edges, graph)
  {
  }
}
