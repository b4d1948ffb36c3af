/** What a leaf says about the order of an entry's edge deltas: the order among the deltas
    with one edge and one operation, and no more. So it fixes what the entry does to the graph
    exactly when, edge by edge, the rest of the order does not matter. */
module LeafOrder {
  import opened Bytes
  import opened Chain
  import opened Framing
  import opened Graph
  import opened Outcomes
  import opened Store

  // ---- Deltas with different keys commute in the sort ----

  lemma {:induction false} InsertsCommute(s: seq<EdgeDelta>, x: EdgeDelta, y: EdgeDelta)
    requires KeyLess(x, y)
    ensures InsertEdge(InsertEdge(s, x), y) == InsertEdge(InsertEdge(s, y), x)
    decreases |s|
  {
    hide KeyLess;
    KeyTotal(x, y);
    if s != [] {
      var n := |s| - 1;
      var last := s[n];
      InsertsCommute(s[..n], x, y);
      if KeyLess(y, last) {
        KeyTransitive(x, y, last);
      }
      InsertLast(s, x);
      InsertLast(s, y);
      InsertLast(InsertEdge(s, x), y);
      InsertLast(InsertEdge(s, y), x);
    }
  }

  /** One step of an insertion, from the last element. */
  lemma InsertLast(s: seq<EdgeDelta>, e: EdgeDelta)
    requires s != []
    ensures var n := |s| - 1;
            InsertEdge(s, e) == if KeyLess(e, s[n]) then InsertEdge(s[..n], e) + [s[n]] else s + [e]
    ensures InsertEdge(s, e) != [] && InsertEdge(s, e)[|InsertEdge(s, e)| - 1] == if KeyLess(e, s[|s| - 1]) then s[|s| - 1] else e
    ensures var r := InsertEdge(s, e);
            r[..|r| - 1] == if KeyLess(e, s[|s| - 1]) then InsertEdge(s[..|s| - 1], e) else s
  {
  }

  lemma DifferentCommute(s: seq<EdgeDelta>, x: EdgeDelta, y: EdgeDelta)
    requires !SameKey(x, y)
    ensures InsertEdge(InsertEdge(s, x), y) == InsertEdge(InsertEdge(s, y), x)
  {
    hide KeyLess, SameKey;
    KeyTotal(x, y);
    if KeyLess(x, y) {
      InsertsCommute(s, x, y);
    } else {
      KeyOther(x, y);
      InsertsCommute(s, y, x);
    }
  }

  lemma KeyOther(x: EdgeDelta, y: EdgeDelta)
    requires !SameKey(x, y) && !KeyLess(x, y)
    ensures KeyLess(y, x)
  {
    hide KeyLess;
    KeyTotal(x, y);
  }

  lemma SortSnoc(edges: seq<EdgeDelta>, e: EdgeDelta)
    ensures SortEdges(edges + [e]) == InsertEdge(SortEdges(edges), e)
  {
    assert (edges + [e])[..|edges|] == edges;
  }

  /** A delta moves past deltas with other keys. */
  lemma {:induction false} MoveAcross(p: seq<EdgeDelta>, c: seq<EdgeDelta>, x: EdgeDelta)
    requires forall d :: d in c ==> !SameKey(x, d)
    ensures SortEdges(p + [x] + c) == SortEdges(p + c + [x])
    decreases |c|
  {
    hide SortEdges, InsertEdge, SameKey;
    if c == [] {
      assert p + [x] + c == p + c + [x];
    } else {
      var n := |c| - 1;
      var rest, y := c[..n], c[n];
      assert c == rest + [y];
      MoveAcross(p, rest, x);
      assert p + [x] + c == (p + [x] + rest) + [y];
      assert p + c == (p + rest) + [y];
      SortSnoc(p + [x] + rest, y);
      SortSnoc(p + rest, x);
      SortSnoc(p + rest, y);
      SortSnoc(p + c, x);
      DifferentCommute(SortEdges(p + rest), x, y);
    }
  }

  // ---- The deltas of one key ----

  predicate HasKey(d: EdgeDelta, id: EdgeId, op: EdgeOp) {
    d.id == id && d.op == op
  }

  /** The deltas with one edge and one operation, in order. */
  function Pick(edges: seq<EdgeDelta>, id: EdgeId, op: EdgeOp): seq<EdgeDelta>
    decreases |edges|
  {
    if edges == [] then []
    else
      var n := |edges| - 1;
      if HasKey(edges[n], id, op) then Pick(edges[..n], id, op) + [edges[n]] else Pick(edges[..n], id, op)
  }

  /** The others. */
  function Rest(edges: seq<EdgeDelta>, id: EdgeId, op: EdgeOp): seq<EdgeDelta>
    decreases |edges|
  {
    if edges == [] then []
    else
      var n := |edges| - 1;
      if HasKey(edges[n], id, op) then Rest(edges[..n], id, op) else Rest(edges[..n], id, op) + [edges[n]]
  }

  lemma PickSnoc(edges: seq<EdgeDelta>, e: EdgeDelta, id: EdgeId, op: EdgeOp)
    ensures Pick(edges + [e], id, op) == if HasKey(e, id, op) then Pick(edges, id, op) + [e] else Pick(edges, id, op)
    ensures Rest(edges + [e], id, op) == if HasKey(e, id, op) then Rest(edges, id, op) else Rest(edges, id, op) + [e]
  {
    assert (edges + [e])[..|edges|] == edges;
  }

  lemma {:induction false} InPick(edges: seq<EdgeDelta>, id: EdgeId, op: EdgeOp, d: EdgeDelta)
    ensures d in Pick(edges, id, op) <==> d in edges && HasKey(d, id, op)
    ensures d in Rest(edges, id, op) <==> d in edges && !HasKey(d, id, op)
    decreases |edges|
  {
    hide HasKey;
    if edges != [] {
      var n := |edges| - 1;
      InPick(edges[..n], id, op, d);
      assert edges == edges[..n] + [edges[n]];
    }
  }

  lemma {:induction false} PickConcat(a: seq<EdgeDelta>, b: seq<EdgeDelta>, id: EdgeId, op: EdgeOp)
    ensures Pick(a + b, id, op) == Pick(a, id, op) + Pick(b, id, op)
    decreases |b|
  {
    hide Pick, HasKey;
    if b == [] {
      assert a + b == a;
      NoPick(id, op);
      assert Pick(a, id, op) + [] == Pick(a, id, op);
    } else {
      var n := |b| - 1;
      PickConcat(a, b[..n], id, op);
      assert a + b == (a + b[..n]) + [b[n]] && b == b[..n] + [b[n]];
      PickSnoc(a + b[..n], b[n], id, op);
      PickSnoc(b[..n], b[n], id, op);
    }
  }

  lemma NoPick(id: EdgeId, op: EdgeOp)
    ensures Pick([], id, op) == [] && Rest([], id, op) == []
  {
  }

  lemma InsertSnoc(past: seq<EdgeDelta>, last: EdgeDelta, e: EdgeDelta)
    ensures InsertEdge(past + [last], e)
         == if KeyLess(e, last) then InsertEdge(past, e) + [last] else past + [last] + [e]
  {
    hide KeyLess;
    assert (past + [last])[..|past|] == past;
  }

  lemma {:induction false} PickInsert(s: seq<EdgeDelta>, e: EdgeDelta, id: EdgeId, op: EdgeOp)
    ensures Pick(InsertEdge(s, e), id, op) == Pick(s + [e], id, op)
    decreases |s|
  {
    hide Pick, KeyLess, InsertEdge, HasKey;
    if s == [] {
      InsertNothing(e);
    } else {
      var past, last := s[..|s| - 1], s[|s| - 1];
      assert s == past + [last];
      InsertSnoc(past, last, e);
      if KeyLess(e, last) {
        LessOther(e, last);
        OtherKey(e, last, id, op);
        PickInsert(past, e, id, op);
        PickSnoc(InsertEdge(past, e), last, id, op);
        PickSnoc(past, last, id, op);
        PickSnoc(past, e, id, op);
        PickSnoc(s, e, id, op);
      }
    }
  }

  lemma InsertNothing(e: EdgeDelta)
    ensures InsertEdge([], e) == [e] == [] + [e]
  {
  }

  lemma OtherKey(a: EdgeDelta, b: EdgeDelta, id: EdgeId, op: EdgeOp)
    requires !SameKey(a, b)
    ensures !(HasKey(a, id, op) && HasKey(b, id, op))
  {
  }

  lemma LessOther(a: EdgeDelta, b: EdgeDelta)
    requires KeyLess(a, b)
    ensures !SameKey(a, b)
  {
    hide Less;
    LessIrreflexive(a.id.graph);
  }

  /** The sort is stable: it keeps the order among the deltas of each key. */
  lemma {:induction false} PickSort(edges: seq<EdgeDelta>, id: EdgeId, op: EdgeOp)
    ensures Pick(SortEdges(edges), id, op) == Pick(edges, id, op)
    decreases |edges|
  {
    hide Pick, InsertEdge, HasKey, SortEdges;
    if edges == [] {
      SortNothing();
    } else {
      var n := |edges| - 1;
      var past, e := edges[..n], edges[n];
      assert edges == past + [e];
      PickSort(past, id, op);
      SortSnoc(past, e);
      PickInsert(SortEdges(past), e, id, op);
      PickSnoc(SortEdges(past), e, id, op);
      PickSnoc(past, e, id, op);
    }
  }

  lemma SortNothing()
    ensures SortEdges([]) == []
  {
  }

  ghost predicate SamePicks(a: seq<EdgeDelta>, b: seq<EdgeDelta>) {
    forall id, op :: Pick(a, id, op) == Pick(b, id, op)
  }

  /** The last delta of a key, and what is before and after it. */
  lemma {:induction false} LastOfKey(edges: seq<EdgeDelta>, id: EdgeId, op: EdgeOp)
    returns (p: seq<EdgeDelta>, x: EdgeDelta, c: seq<EdgeDelta>)
    requires Pick(edges, id, op) != []
    ensures edges == p + [x] + c && HasKey(x, id, op) && forall d :: d in c ==> !HasKey(d, id, op)
    ensures Pick(edges, id, op) == Pick(p, id, op) + [x] && Pick(c, id, op) == []
    decreases |edges|
  {
    hide Pick, HasKey;
    NoPick(id, op);
    var n := |edges| - 1;
    var past, e := edges[..n], edges[n];
    assert edges == past + [e];
    PickSnoc(past, e, id, op);
    if HasKey(e, id, op) {
      p, x, c := past, e, [];
    } else {
      var before;
      p, x, before := LastOfKey(past, id, op);
      PickSnoc(before, e, id, op);
      Regrouped(p + [x], before, e);
      c := before + [e];
    }
  }

  lemma Regrouped(a: seq<EdgeDelta>, b: seq<EdgeDelta>, e: EdgeDelta)
    ensures (a + b) + [e] == a + (b + [e])
    ensures forall d :: d in b + [e] <==> d in b || d == e
  {
  }

  /** Only the order within each key matters to the sort. */
  lemma {:induction false} SamePicksSort(a: seq<EdgeDelta>, b: seq<EdgeDelta>)
    requires SamePicks(a, b)
    ensures SortEdges(a) == SortEdges(b)
    decreases |a|
  {
    hide Pick, SortEdges, HasKey;
    if a == [] {
      NothingPicked(b);
    } else {
      var n := |a| - 1;
      var x := a[n];
      assert a == a[..n] + [x];
      PickSnoc(a[..n], x, x.id, x.op);
      OwnKey(x);
      assert Pick(b, x.id, x.op) == Pick(a, x.id, x.op);
      var p, y, c := LastOfKey(b, x.id, x.op);
      assert y == (Pick(p, x.id, x.op) + [y])[|Pick(p, x.id, x.op)|] == x;
      RemoveKey(a[..n], p, x, c);
      SamePicksSort(a[..n], p + c);
      OtherKeys(c, x);
      MoveAcross(p, c, x);
      SortSnoc(a[..n], x);
      SortSnoc(p + c, x);
    }
  }

  lemma NothingPicked(b: seq<EdgeDelta>)
    requires SamePicks([], b)
    ensures b == []
  {
    if b != [] {
      var d := b[|b| - 1];
      assert Pick([], d.id, d.op) == Pick(b, d.id, d.op);
    }
  }

  lemma OwnKey(x: EdgeDelta)
    ensures HasKey(x, x.id, x.op)
  {
  }

  lemma OtherKeys(c: seq<EdgeDelta>, x: EdgeDelta)
    requires forall d :: d in c ==> !HasKey(d, x.id, x.op)
    ensures forall d :: d in c ==> !SameKey(x, d)
  {
  }

  lemma RemoveKey(a: seq<EdgeDelta>, p: seq<EdgeDelta>, x: EdgeDelta, c: seq<EdgeDelta>)
    requires SamePicks(a + [x], p + [x] + c) && Pick(c, x.id, x.op) == []
    ensures SamePicks(a, p + c)
  {
    hide Pick;
    forall id, op
      ensures Pick(a, id, op) == Pick(p + c, id, op)
    {
      assert Pick(a + [x], id, op) == Pick(p + [x] + c, id, op);
      PickSnoc(a, x, id, op);
      PickSnoc(p, x, id, op);
      PickConcat(p + [x], c, id, op);
      PickConcat(p, c, id, op);
      if HasKey(x, id, op) {
        assert Pick(a, id, op) + [x] == Pick(p, id, op) + [x] + [];
        assert (Pick(a, id, op) + [x])[..|Pick(a, id, op)|] == Pick(a, id, op);
      }
    }
  }

  lemma SortSamePicks(a: seq<EdgeDelta>, b: seq<EdgeDelta>)
    requires SortEdges(a) == SortEdges(b)
    ensures SamePicks(a, b)
  {
    hide Pick, SortEdges;
    forall id, op
      ensures Pick(a, id, op) == Pick(b, id, op)
    {
      PickSort(a, id, op);
      PickSort(b, id, op);
    }
  }

  /** The sorted edges ascend field by field: graph, source, destination, type, operation. */
  lemma SortAscends(edges: seq<EdgeDelta>, i: nat, j: nat)
    requires i < j < |SortEdges(edges)|
    ensures var a, b := SortEdges(edges)[i], SortEdges(edges)[j];
      && AtMost(a.id.graph, b.id.graph)
      && (a.id.graph == b.id.graph ==> AtMost(a.id.src, b.id.src))
      && (a.id.graph == b.id.graph && a.id.src == b.id.src ==> AtMost(a.id.dst, b.id.dst))
      && (a.id.graph == b.id.graph && a.id.src == b.id.src && a.id.dst == b.id.dst ==> AtMost(a.id.etype, b.id.etype))
      && (a.id == b.id ==> OpByte(a.op) <= OpByte(b.op))
  {
    hide Less, SortEdges;
    SortOrders(edges);
    KeyTotal(SortEdges(edges)[i], SortEdges(edges)[j]);
    NotAfter(SortEdges(edges)[i], SortEdges(edges)[j]);
  }

  lemma NotAfter(a: EdgeDelta, b: EdgeDelta)
    requires !KeyLess(b, a)
    ensures AtMost(a.id.graph, b.id.graph)
    ensures a.id.graph == b.id.graph ==> AtMost(a.id.src, b.id.src)
    ensures a.id.graph == b.id.graph && a.id.src == b.id.src ==> AtMost(a.id.dst, b.id.dst)
    ensures a.id.graph == b.id.graph && a.id.src == b.id.src && a.id.dst == b.id.dst ==> AtMost(a.id.etype, b.id.etype)
    ensures a.id == b.id ==> OpByte(a.op) <= OpByte(b.op)
  {
    hide Less;
    LessTrichotomy(a.id.graph, b.id.graph);
    LessTrichotomy(a.id.src, b.id.src);
    LessTrichotomy(a.id.dst, b.id.dst);
    LessTrichotomy(a.id.etype, b.id.etype);
  }

  ghost predicate InKeyOrder(edges: seq<EdgeDelta>) {
    forall i, j :: 0 <= i < j < |edges| ==> !KeyLess(edges[j], edges[i])
  }

  lemma NotAfterTransitive(a: EdgeDelta, b: EdgeDelta, c: EdgeDelta)
    requires !KeyLess(b, a) && !KeyLess(c, b)
    ensures !KeyLess(c, a)
  {
    hide Less;
    NotAfter(a, b);
    NotAfter(b, c);
    TextsInOrder(a.id.graph, b.id.graph, c.id.graph);
    TextsInOrder(a.id.src, b.id.src, c.id.src);
    TextsInOrder(a.id.dst, b.id.dst, c.id.dst);
    TextsInOrder(a.id.etype, b.id.etype, c.id.etype);
  }

  /** Among three texts in order, equal ends have an equal middle, and the last is not before
      the first. */
  lemma TextsInOrder(a: Text, b: Text, c: Text)
    ensures AtMost(a, b) && AtMost(b, c) ==> !Less(c, a) && (a == c ==> b == a)
  {
    LessTrichotomy(a, b);
    LessTrichotomy(b, c);
    LessTrichotomy(a, c);
    if Less(a, b) && Less(b, c) {
      LessTransitive(a, b, c);
    }
  }

  lemma OrderSnoc(edges: seq<EdgeDelta>, last: EdgeDelta)
    ensures InKeyOrder(edges + [last]) <==> InKeyOrder(edges) && forall i :: 0 <= i < |edges| ==> !KeyLess(last, edges[i])
  {
    hide KeyLess;
    var all := edges + [last];
    if InKeyOrder(all) {
      forall i, j | 0 <= i < j < |edges|
        ensures !KeyLess(edges[j], edges[i])
      {
        assert all[i] == edges[i] && all[j] == edges[j];
      }
      forall i | 0 <= i < |edges|
        ensures !KeyLess(last, edges[i])
      {
        assert all[i] == edges[i] && all[|edges|] == last;
      }
    }
  }

  lemma {:induction false} InsertOrders(sorted: seq<EdgeDelta>, e: EdgeDelta)
    requires InKeyOrder(sorted)
    ensures InKeyOrder(InsertEdge(sorted, e))
    decreases |sorted|
  {
    hide KeyLess, InKeyOrder;
    if sorted == [] {
      OrderSnoc([], e);
      NothingInOrder();
      assert [] + [e] == [e];
    } else {
      var past, last := sorted[..|sorted| - 1], sorted[|sorted| - 1];
      assert sorted == past + [last];
      OrderSnoc(past, last);
      if KeyLess(e, last) {
        InsertOrders(past, e);
        KeyTotal(e, last);
        NoneAfter(past, e, last);
        OrderSnoc(InsertEdge(past, e), last);
      } else {
        forall i | 0 <= i < |past|
          ensures !KeyLess(e, past[i])
        {
          NotAfterTransitive(past[i], last, e);
        }
        OrderSnoc(sorted, e);
      }
    }
  }

  lemma NoneAfter(past: seq<EdgeDelta>, e: EdgeDelta, last: EdgeDelta)
    requires !KeyLess(last, e) && forall i :: 0 <= i < |past| ==> !KeyLess(last, past[i])
    ensures forall i :: 0 <= i < |InsertEdge(past, e)| ==> !KeyLess(last, InsertEdge(past, e)[i])
  {
    hide KeyLess, InsertEdge;
    InsertKeepsAll(past, e);
    var rest := InsertEdge(past, e);
    forall i | 0 <= i < |rest|
      ensures !KeyLess(last, rest[i])
    {
      assert rest[i] in multiset(rest);
      assert rest[i] in past || rest[i] == e;
    }
  }

  lemma {:induction false} SortOrders(edges: seq<EdgeDelta>)
    ensures InKeyOrder(SortEdges(edges))
    decreases |edges|
  {
    hide KeyLess, InsertEdge, InKeyOrder;
    if edges == [] {
      NothingInOrder();
    } else {
      SortOrders(edges[..|edges| - 1]);
      InsertOrders(SortEdges(edges[..|edges| - 1]), edges[|edges| - 1]);
    }
  }

  lemma NothingInOrder()
    ensures InKeyOrder([]) && SortEdges([]) == []
  {
  }

  /** Two entries have one leaf exactly if they agree in type, payload, time, and, for each
      edge and operation, in the list of deltas. */
  lemma LeafEqualExactly(a: EntryInput, b: EntryInput)
    requires FitsEntry(a) && FitsEntry(b)
    ensures LeafBytes(a) == LeafBytes(b)
       <==> a.etype == b.etype && a.payload == b.payload && a.at == b.at && SamePicks(a.edges, b.edges)
  {
    hide LeafBytes, FitsEntry, SortEdges, SamePicks;
    LeafDetermines(a, b);
    if SortEdges(a.edges) == SortEdges(b.edges) {
      SortSamePicks(a.edges, b.edges);
    }
    if SamePicks(a.edges, b.edges) {
      SamePicksSort(a.edges, b.edges);
    }
  }

  // ---- Order that never matters ----

  /** No two deltas agree in edge and operation. */
  ghost predicate DistinctKeys(edges: seq<EdgeDelta>) {
    forall i, j :: 0 <= i < j < |edges| ==> !SameKey(edges[i], edges[j])
  }

  lemma {:induction false} PickOne(edges: seq<EdgeDelta>, d: EdgeDelta)
    requires DistinctKeys(edges) && d in edges
    ensures Pick(edges, d.id, d.op) == [d]
    decreases |edges|
  {
    var n := |edges| - 1;
    if edges[n] == d {
      forall x
        ensures x !in Pick(edges[..n], d.id, d.op)
      {
        InPick(edges[..n], d.id, d.op, x);
      }
      NoMembers(Pick(edges[..n], d.id, d.op));
    } else {
      assert edges == edges[..n] + [edges[n]];
      PickOne(edges[..n], d);
    }
  }

  lemma NoMembers(s: seq<EdgeDelta>)
    ensures (forall x :: x !in s) ==> s == []
  {
    assert s == [] || s[0] in s;
  }

  /** With at most one delta for each edge and operation, the order in which the deltas are
      given does not matter to the leaf. */
  lemma LeafIgnoresOrder(a: EntryInput, b: EntryInput)
    requires a.etype == b.etype && a.payload == b.payload && a.at == b.at && multiset(a.edges) == multiset(b.edges)
    requires DistinctKeys(a.edges) && DistinctKeys(b.edges)
    ensures LeafBytes(a) == LeafBytes(b)
  {
    hide EntryBytes, SortEdges, Pick, DistinctKeys;
    forall id, op
      ensures Pick(a.edges, id, op) == Pick(b.edges, id, op)
    {
      if d :| d in a.edges && HasKey(d, id, op) {
        assert d in multiset(b.edges);
        PickOne(a.edges, d);
        PickOne(b.edges, d);
      } else {
        forall x
          ensures x !in Pick(a.edges, id, op) && x !in Pick(b.edges, id, op)
        {
          InPick(a.edges, id, op, x);
          InPick(b.edges, id, op, x);
          assert x in multiset(b.edges) <==> x in multiset(a.edges);
        }
        NoMembers(Pick(a.edges, id, op));
        NoMembers(Pick(b.edges, id, op));
      }
    }
    SamePicksSort(a.edges, b.edges);
  }

  // ---- What the deltas of one edge do ----

  function WeightAt(edges: map<EdgeId, Weight>, id: EdgeId): Option<Weight> {
    if id in edges then Some(edges[id]) else None
  }

  /** The weight of one edge after a list of deltas. */
  function FoldOn(w: Option<Weight>, deltas: seq<EdgeDelta>, id: EdgeId): Option<Weight>
    decreases |deltas|
  {
    if deltas == [] then w
    else
      var n := |deltas| - 1;
      var before := FoldOn(w, deltas[..n], id);
      if deltas[n].id == id then After(before, deltas[n]) else before
  }

  lemma {:induction false} EffectsFold(edges: map<EdgeId, Weight>, deltas: seq<EdgeDelta>, id: EdgeId)
    ensures WeightAt(Effects(edges, deltas), id) == FoldOn(WeightAt(edges, id), deltas, id)
    decreases |deltas|
  {
    if deltas != [] {
      EffectsFold(edges, deltas[..|deltas| - 1], id);
    }
  }

  lemma {:induction false} FoldConcat(w: Option<Weight>, p: seq<EdgeDelta>, q: seq<EdgeDelta>, id: EdgeId)
    ensures FoldOn(w, p + q, id) == FoldOn(FoldOn(w, p, id), q, id)
    decreases |q|
  {
    if q == [] {
      assert p + q == p;
    } else {
      var n := |q| - 1;
      assert (p + q)[..|p + q| - 1] == p + q[..n];
      FoldConcat(w, p, q[..n], id);
    }
  }

  // ---- When the order does not matter ----

  /** The weight that the last plain upsert of the edge sets. */
  function LastSet(deltas: seq<EdgeDelta>, id: EdgeId): Option<Weight> {
    var sets := Pick(deltas, id, Upsert(Set));
    if sets == [] then None else Some(sets[|sets| - 1].weight)
  }

  predicate AllOp(deltas: seq<EdgeDelta>, id: EdgeId, op: EdgeOp) {
    forall d :: d in deltas && d.id == id ==> d.op == op
  }

  /** All deltas of the edge have one operation. */
  ghost predicate OneOp(deltas: seq<EdgeDelta>, id: EdgeId) {
    exists op :: AllOp(deltas, id, op)
  }

  /** The edge is set, never deleted, and no raise goes above the weight set last. */
  predicate SetsSettle(deltas: seq<EdgeDelta>, id: EdgeId) {
    && LastSet(deltas, id).Some?
    && forall d :: d in deltas && d.id == id ==> d.op != EdgeOp.Delete && (d.op == Upsert(Max) ==> d.weight <= LastSet(deltas, id).value)
  }

  ghost predicate OrderFree(deltas: seq<EdgeDelta>, id: EdgeId) {
    OneOp(deltas, id) || SetsSettle(deltas, id)
  }

  lemma {:induction false} FoldPick(w: Option<Weight>, deltas: seq<EdgeDelta>, id: EdgeId, op: EdgeOp)
    requires forall d :: d in deltas && d.id == id ==> d.op == op
    ensures FoldOn(w, deltas, id) == FoldOn(w, Pick(deltas, id, op), id)
    decreases |deltas|
  {
    hide After;
    if deltas != [] {
      var n := |deltas| - 1;
      assert deltas[n] in deltas;
      assert forall d :: d in deltas[..n] ==> d in deltas;
      FoldPick(w, deltas[..n], id, op);
      var before := Pick(deltas[..n], id, op);
      assert (before + [deltas[n]])[..|before|] == before;
    }
  }

  lemma {:induction false} FoldSettles(w: Option<Weight>, deltas: seq<EdgeDelta>, id: EdgeId)
    requires SetsSettle(deltas, id)
    ensures FoldOn(w, deltas, id) == LastSet(deltas, id)
    decreases |deltas|
  {
    if deltas != [] {
      var n := |deltas| - 1;
      var d := deltas[n];
      assert d in deltas;
      assert forall x :: x in deltas[..n] ==> x in deltas;
      if !HasKey(d, id, Upsert(Set)) {
        FoldSettles(w, deltas[..n], id);
      }
    }
  }

  lemma FixedFold(w: Option<Weight>, a: seq<EdgeDelta>, b: seq<EdgeDelta>, id: EdgeId)
    requires SamePicks(a, b) && OrderFree(a, id)
    ensures FoldOn(w, a, id) == FoldOn(w, b, id)
  {
    hide FoldOn, Pick;
    SameOnEdge(a, b, id);
    if OneOp(a, id) {
      var op :| AllOp(a, id, op);
      FoldPick(w, a, id, op);
      FoldPick(w, b, id, op);
    } else {
      FoldSettles(w, a, id);
      FoldSettles(w, b, id);
    }
  }

  lemma SameOnEdge(a: seq<EdgeDelta>, b: seq<EdgeDelta>, id: EdgeId)
    requires SamePicks(a, b)
    ensures forall d: EdgeDelta :: d.id == id ==> (d in a <==> d in b)
    ensures LastSet(a, id) == LastSet(b, id)
  {
    hide Pick;
    forall d: EdgeDelta | d.id == id
      ensures d in a <==> d in b
    {
      InPick(a, id, d.op, d);
      InPick(b, id, d.op, d);
    }
  }

  // ---- When it does ----

  /** The deltas of a key moved to the end, or to the front, leave the leaf as it is. */
  lemma {:induction false} KeyMoves(edges: seq<EdgeDelta>, id: EdgeId, op: EdgeOp)
    ensures SortEdges(Rest(edges, id, op) + Pick(edges, id, op)) == SortEdges(edges)
    ensures SortEdges(Pick(edges, id, op) + Rest(edges, id, op)) == SortEdges(edges)
    decreases |edges|
  {
    hide SortEdges, Pick, Rest, HasKey;
    if edges == [] {
      NoPick(id, op);
    } else {
      var n := |edges| - 1;
      var x := edges[n];
      var pick, rest := Pick(edges[..n], id, op), Rest(edges[..n], id, op);
      assert edges == edges[..n] + [x];
      KeyMoves(edges[..n], id, op);
      PickSnoc(edges[..n], x, id, op);
      SortSnoc(edges[..n], x);
      SortSnoc(rest + pick, x);
      SortSnoc(pick + rest, x);
      assert rest + (pick + [x]) == rest + pick + [x];
      assert pick + (rest + [x]) == pick + rest + [x];
      if HasKey(x, id, op) {
        RestOther(edges[..n], id, op, x);
        MoveAcross(pick, rest, x);
      } else {
        PickOther(edges[..n], id, op, x);
        MoveAcross(rest, pick, x);
      }
    }
  }

  lemma RestOther(edges: seq<EdgeDelta>, id: EdgeId, op: EdgeOp, x: EdgeDelta)
    requires HasKey(x, id, op)
    ensures forall d :: d in Rest(edges, id, op) ==> !SameKey(x, d)
  {
    forall d | d in Rest(edges, id, op)
      ensures !SameKey(x, d)
    {
      InPick(edges, id, op, d);
    }
  }

  lemma PickOther(edges: seq<EdgeDelta>, id: EdgeId, op: EdgeOp, x: EdgeDelta)
    requires !HasKey(x, id, op)
    ensures forall d :: d in Pick(edges, id, op) ==> !SameKey(x, d)
  {
    forall d | d in Pick(edges, id, op)
      ensures !SameKey(x, d)
    {
      InPick(edges, id, op, d);
    }
  }

  lemma {:induction false} FoldUpserts(w: Option<Weight>, deltas: seq<EdgeDelta>, id: EdgeId)
    requires forall d :: d in deltas && d.id == id ==> d.op != EdgeOp.Delete
    requires exists d :: d in deltas && d.id == id
    ensures FoldOn(w, deltas, id).Some?
    decreases |deltas|
  {
    var n := |deltas| - 1;
    var d :| d in deltas && d.id == id;
    assert deltas[n] in deltas;
    assert forall x :: x in deltas[..n] ==> x in deltas;
    if deltas[n].id != id {
      assert deltas == deltas[..n] + [deltas[n]];
      assert d in deltas[..n];
      FoldUpserts(w, deltas[..n], id);
    }
  }

  lemma {:induction false} FoldRaises(w: Option<Weight>, deltas: seq<EdgeDelta>, id: EdgeId, d: EdgeDelta)
    requires (forall x :: x in deltas ==> HasKey(x, id, Upsert(Max))) && d in deltas
    ensures FoldOn(w, deltas, id).Some? && FoldOn(w, deltas, id).value >= d.weight
    decreases |deltas|
  {
    var n := |deltas| - 1;
    assert deltas[n] in deltas;
    assert forall x :: x in deltas[..n] ==> x in deltas;
    if deltas[n] != d {
      assert deltas == deltas[..n] + [deltas[n]];
      FoldRaises(w, deltas[..n], id, d);
    }
  }

  lemma PickHasKey(edges: seq<EdgeDelta>, id: EdgeId, op: EdgeOp)
    ensures forall x :: x in Pick(edges, id, op) ==> x in edges && HasKey(x, id, op)
    ensures forall x :: x in Rest(edges, id, op) <==> x in edges && !HasKey(x, id, op)
  {
    hide HasKey;
    forall x
      ensures x in Pick(edges, id, op) ==> x in edges && HasKey(x, id, op)
      ensures x in Rest(edges, id, op) <==> x in edges && !HasKey(x, id, op)
    {
      InPick(edges, id, op, x);
    }
  }

  /** With a delete and another operation: deletes last leave no edge, deletes first leave
      one. */
  lemma DeletesMatter(deltas: seq<EdgeDelta>, id: EdgeId, del: EdgeDelta, other: EdgeDelta)
    requires del in deltas && HasKey(del, id, EdgeOp.Delete)
    requires other in deltas && other.id == id && other.op != EdgeOp.Delete
    ensures var pick, rest := Pick(deltas, id, EdgeOp.Delete), Rest(deltas, id, EdgeOp.Delete);
            FoldOn(None, rest + pick, id) != FoldOn(None, pick + rest, id)
  {
    var pick, rest := Pick(deltas, id, EdgeOp.Delete), Rest(deltas, id, EdgeOp.Delete);
    InPick(deltas, id, EdgeOp.Delete, del);
    PickHasKey(deltas, id, EdgeOp.Delete);
    FoldConcat(None, rest, pick, id);
    FoldConcat(None, pick, rest, id);
    assert pick[|pick| - 1] in pick;
    assert FoldOn(FoldOn(None, rest, id), pick, id) == None;
    FoldUpserts(FoldOn(None, pick, id), rest, id);
  }

  /** With a raise above the weight set last, and no delete: raises last win, raises first do
      not. */
  lemma RaisesMatter(deltas: seq<EdgeDelta>, id: EdgeId, raise: EdgeDelta)
    requires forall d :: d in deltas && d.id == id ==> d.op != EdgeOp.Delete
    requires LastSet(deltas, id).Some?
    requires raise in deltas && HasKey(raise, id, Upsert(Max)) && raise.weight > LastSet(deltas, id).value
    ensures var pick, rest := Pick(deltas, id, Upsert(Max)), Rest(deltas, id, Upsert(Max));
            FoldOn(None, rest + pick, id) != FoldOn(None, pick + rest, id)
  {
    hide FoldOn, Pick, Rest;
    var pick, rest := Pick(deltas, id, Upsert(Max)), Rest(deltas, id, Upsert(Max));
    InPick(deltas, id, Upsert(Max), raise);
    PickHasKey(deltas, id, Upsert(Max));
    FoldConcat(None, rest, pick, id);
    FoldConcat(None, pick, rest, id);
    FoldRaises(FoldOn(None, rest, id), pick, id, raise);
    RestKeepsSets(deltas, id);
    FoldSettles(FoldOn(None, pick, id), rest, id);
  }

  lemma {:induction false} RestKeepsSets(deltas: seq<EdgeDelta>, id: EdgeId)
    ensures Pick(Rest(deltas, id, Upsert(Max)), id, Upsert(Set)) == Pick(deltas, id, Upsert(Set))
    decreases |deltas|
  {
    if deltas != [] {
      var n := |deltas| - 1;
      RestKeepsSets(deltas[..n], id);
      PickSnoc(Rest(deltas[..n], id, Upsert(Max)), deltas[n], id, Upsert(Set));
    }
  }

  /** Where the order matters, two orders with the same leaf leave different weights. */
  lemma OrderMatters(deltas: seq<EdgeDelta>, id: EdgeId) returns (x: seq<EdgeDelta>, y: seq<EdgeDelta>)
    requires !OrderFree(deltas, id)
    ensures SortEdges(x) == SortEdges(deltas) == SortEdges(y) && FoldOn(None, x, id) != FoldOn(None, y, id)
  {
    hide FoldOn, Pick, Rest, SortEdges;
    if del :| del in deltas && HasKey(del, id, EdgeOp.Delete) {
      assert !AllOp(deltas, id, EdgeOp.Delete);
      var other :| other in deltas && other.id == id && other.op != EdgeOp.Delete;
      DeletesMatter(deltas, id, del, other);
      KeyMoves(deltas, id, EdgeOp.Delete);
      x := Rest(deltas, id, EdgeOp.Delete) + Pick(deltas, id, EdgeOp.Delete);
      y := Pick(deltas, id, EdgeOp.Delete) + Rest(deltas, id, EdgeOp.Delete);
    } else {
      var raise := RaiseAbove(deltas, id);
      RaisesMatter(deltas, id, raise);
      KeyMoves(deltas, id, Upsert(Max));
      x := Rest(deltas, id, Upsert(Max)) + Pick(deltas, id, Upsert(Max));
      y := Pick(deltas, id, Upsert(Max)) + Rest(deltas, id, Upsert(Max));
    }
  }

  lemma ThenSet(op: EdgeOp)
    requires op != EdgeOp.Delete && op != Upsert(Max)
    ensures op == Upsert(Set)
  {
    match op
    case Upsert(Set) =>
    case Upsert(Max) =>
  }

  lemma RaiseAbove(deltas: seq<EdgeDelta>, id: EdgeId) returns (raise: EdgeDelta)
    requires !OrderFree(deltas, id) && forall d :: d in deltas && d.id == id ==> d.op != EdgeOp.Delete
    ensures LastSet(deltas, id).Some?
    ensures raise in deltas && HasKey(raise, id, Upsert(Max)) && raise.weight > LastSet(deltas, id).value
  {
    hide Pick;
    assert !AllOp(deltas, id, Upsert(Max));
    var d :| d in deltas && d.id == id && d.op != Upsert(Max);
    ThenSet(d.op);
    InPick(deltas, id, Upsert(Set), d);
    assert d in Pick(deltas, id, Upsert(Set));
    raise :| raise in deltas && raise.id == id && raise.op == Upsert(Max) && raise.weight > LastSet(deltas, id).value;
  }

  // ---- The theorem ----

  /** Every entry with the leaf of `a` does to every graph what `a` does. */
  ghost predicate FixesEffect(a: EntryInput) {
    forall b: EntryInput, edges: map<EdgeId, Weight> ::
      FitsEntry(b) && LeafBytes(b) == LeafBytes(a) ==> Effects(edges, b.edges) == Effects(edges, a.edges)
  }

  lemma SameMap(x: map<EdgeId, Weight>, y: map<EdgeId, Weight>)
    requires forall id :: WeightAt(x, id) == WeightAt(y, id)
    ensures x == y
  {
    assert forall id :: WeightAt(x, id).Some? <==> id in x;
    assert forall id :: WeightAt(y, id).Some? <==> id in y;
    assert forall id | id in x :: x[id] == WeightAt(x, id).value;
    assert x.Keys == y.Keys;
  }

  lemma FreeFixes(a: EntryInput, b: EntryInput, edges: map<EdgeId, Weight>)
    requires FitsEntry(a) && FitsEntry(b) && LeafBytes(b) == LeafBytes(a) && forall id :: OrderFree(a.edges, id)
    ensures Effects(edges, b.edges) == Effects(edges, a.edges)
  {
    hide LeafBytes, FitsEntry, Effects, FoldOn, OrderFree, SamePicks, WeightAt;
    LeafEqualExactly(a, b);
    var x, y := Effects(edges, b.edges), Effects(edges, a.edges);
    forall id
      ensures WeightAt(x, id) == WeightAt(y, id)
    {
      FixedFold(WeightAt(edges, id), a.edges, b.edges, id);
      EffectsFold(edges, a.edges, id);
      EffectsFold(edges, b.edges, id);
    }
    SameMap(x, y);
  }

  lemma ResortFits(a: EntryInput, x: seq<EdgeDelta>)
    requires FitsEntry(a) && SortEdges(x) == SortEdges(a.edges)
    ensures FitsEntry(a.(edges := x)) && LeafBytes(a.(edges := x)) == LeafBytes(a)
  {
    hide FitsField, FitsEdge, SortEdges, EntryBytes;
    SortKeepsAll(x);
    SortKeepsAll(a.edges);
    assert |multiset(x)| == |x| && |multiset(a.edges)| == |a.edges|;
    forall d | d in x
      ensures FitsEdge(d)
    {
      assert d in multiset(a.edges);
    }
  }

  /** The leaf of an entry fixes what the entry does to every graph exactly if, for each edge,
      all its deltas have one operation, or it is never deleted and never raised above the
      weight set last. */
  lemma LeafFixesEffectExactly(a: EntryInput)
    requires FitsEntry(a)
    ensures FixesEffect(a) <==> forall id :: OrderFree(a.edges, id)
  {
    hide LeafBytes, FitsEntry, Effects, FoldOn, OrderFree, SortEdges;
    if forall id :: OrderFree(a.edges, id) {
      forall b: EntryInput, edges: map<EdgeId, Weight> | FitsEntry(b) && LeafBytes(b) == LeafBytes(a)
        ensures Effects(edges, b.edges) == Effects(edges, a.edges)
      {
        FreeFixes(a, b, edges);
      }
      assert FixesEffect(a);
    } else {
      var id :| !OrderFree(a.edges, id);
      OrderUnfixes(a, id);
    }
  }

  lemma OrderUnfixes(a: EntryInput, id: EdgeId)
    requires FitsEntry(a) && !OrderFree(a.edges, id)
    ensures !FixesEffect(a)
  {
    hide LeafBytes, FitsEntry, Effects, FoldOn, OrderFree, SortEdges;
    var x, y := OrderMatters(a.edges, id);
    ResortFits(a, x);
    ResortFits(a, y);
    var none: map<EdgeId, Weight> := map[];
    EffectsFold(none, x, id);
    EffectsFold(none, y, id);
    assert WeightAt(none, id) == None;
    var bx, bz := a.(edges := x), a.(edges := y);
    assert bx.edges == x && bz.edges == y;
    assert Effects(none, bx.edges) != Effects(none, a.edges) || Effects(none, bz.edges) != Effects(none, a.edges);
  }

  /** The shortest such entry: an upsert and a delete of one edge give the same leaf in either
      order, though the graph they leave differs. */
  lemma LeafHidesOrder(e: EntryInput, id: EdgeId, w: Weight)
    ensures var up, del := EdgeDelta(id, w, Upsert(Set)), EdgeDelta(id, w, EdgeOp.Delete);
            && LeafBytes(e.(edges := [up, del])) == LeafBytes(e.(edges := [del, up]))
            && id !in Effects(map[], [up, del])
            && id in Effects(map[], [del, up])
  {
    hide EntryBytes, SortEdges;
    var up, del := EdgeDelta(id, w, Upsert(Set)), EdgeDelta(id, w, EdgeOp.Delete);
    MoveAcross([], [del], up);
    assert [] + [up] + [del] == [up, del] && [] + [del] + [up] == [del, up];
    assert [up, del][..1] == [up] && [del, up][..1] == [del] && [up][..0] == [] && [del][..0] == [];
    assert Effects(map[], [up]) == Effect(Effects(map[], []), up);
    assert Effects(map[], [del]) == Effect(Effects(map[], []), del);
  }
}
