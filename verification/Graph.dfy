/** The graph store: one canonical record per edge identity and two adjacency records that
    fold the weight into their keys, maintained by edge deltas within one write batch. */
module Graph {
  import opened Bytes
  import opened Outcomes
  import opened Store

  // ---- The graph as a map ----

  /** What a delta means for the graph itself. */
  function Effect(edges: map<EdgeId, Weight>, d: EdgeDelta): map<EdgeId, Weight> {
    match d.op
    case Delete => edges - {d.id}
    case Upsert(merge) => edges[d.id := Merged(if d.id in edges then Some(edges[d.id]) else None, merge, d.weight)]
  }

  function Effects(edges: map<EdgeId, Weight>, deltas: seq<EdgeDelta>): map<EdgeId, Weight>
    decreases |deltas|
  {
    if deltas == [] then edges else Effect(Effects(edges, deltas[..|deltas| - 1]), deltas[|deltas| - 1])
  }

  function Merged(current: Option<Weight>, merge: Merge, weight: Weight): Weight {
    match current
    case None => weight
    case Some(w0) => if merge == Max && w0 > weight then w0 else weight
  }

  /** The two indexes describe exactly the canonical edges, each at its one weight. */
  ghost predicate Consistent(st: State) {
    (forall k :: k in st.outs <==> IsEdge(st, k)) && (forall k :: k in st.ins <==> IsEdge(st, k))
  }

  ghost predicate IsEdge(st: State, k: Weighted) {
    k.id in st.edges && st.edges[k.id] == k.weight
  }

  // ---- One delta ----

  /** The operations that take an edge from `current` to what the delta asks for. */
  function DeltaOps(current: Option<Weight>, d: EdgeDelta): Batch {
    match d.op
    case Delete =>
      (match current
       case None => []
       case Some(w0) => [DeleteEdge(d.id), DeleteOut(Weighted(d.id, w0)), DeleteIn(Weighted(d.id, w0))])
    case Upsert(merge) =>
      var w := Merged(current, merge, d.weight);
      (if current.Some? && current.value != w
       then [DeleteOut(Weighted(d.id, current.value)), DeleteIn(Weighted(d.id, current.value))]
       else [])
      + [PutEdge(d.id, w), PutOut(Weighted(d.id, w)), PutIn(Weighted(d.id, w))]
  }

  /** The weight after a delta, as an overlay entry. */
  function After(current: Option<Weight>, d: EdgeDelta): Option<Weight> {
    match d.op
    case Delete => None
    case Upsert(merge) => Some(Merged(current, merge, d.weight))
  }

  function Changes(current: Option<Weight>, d: EdgeDelta): bool {
    After(current, d) != current
  }

  // ---- A batch with its overlay ----

  type Overlay = map<EdgeId, Option<Weight>>

  function Current(st: State, overlay: Overlay, id: EdgeId): Option<Weight> {
    if id in overlay then overlay[id] else GetWeight(st, id)
  }

  /** A write batch under construction, and what its operations will have written. */
  datatype Pending = Pending(ops: Batch, overlay: Overlay)

  const NoDeltas := Pending([], map[])

  function AddDelta(st: State, p: Pending, d: EdgeDelta): Pending {
    var current := Current(st, p.overlay, d.id);
    Pending(p.ops + DeltaOps(current, d),
            if d.op == EdgeOp.Delete && current == None then p.overlay else p.overlay[d.id := After(current, d)])
  }

  /** The operations of a list of deltas, each computed against the deltas before it through
      the overlay. */
  function AddDeltas(st: State, p: Pending, deltas: seq<EdgeDelta>): Pending
    decreases |deltas|
  {
    if deltas == [] then p else AddDelta(st, AddDeltas(st, p, deltas[..|deltas| - 1]), deltas[|deltas| - 1])
  }

  /** How many of the deltas report a change. */
  function Reported(st: State, p: Pending, deltas: seq<EdgeDelta>): nat
    decreases |deltas|
  {
    if deltas == [] then 0
    else
      var n := |deltas| - 1;
      Reported(st, p, deltas[..n])
      + if Changes(Current(st, AddDeltas(st, p, deltas[..n]).overlay, deltas[n].id), deltas[n]) then 1 else 0
  }

  class EdgeBatch {
    var ops: Batch
    var overlay: Overlay

    function Contents(): Pending
      reads this
    {
      Pending(ops, overlay)
    }

    constructor ()
      ensures Contents() == NoDeltas
    {
      ops, overlay := [], map[];
    }

    /** Applies one delta and says whether it changes the store. */
    method ApplyEdgeDelta(st: State, d: EdgeDelta) returns (changed: bool)
      modifies this
      ensures Contents() == AddDelta(st, old(Contents()), d)
      ensures changed == Changes(Current(st, old(overlay), d.id), d)
    {
      var current := if d.id in overlay then overlay[d.id] else GetWeight(st, d.id);
      match d.op
      case Delete =>
        if current.Some? {
          var w0 := current.value;
          ops := ops + [DeleteEdge(d.id), DeleteOut(Weighted(d.id, w0)), DeleteIn(Weighted(d.id, w0))];
          overlay := overlay[d.id := None];
          changed := true;
        } else {
          assert ops + [] == ops;
          changed := false;
        }
      case Upsert(merge) =>
        var newW := d.weight;
        if current.Some? && merge == Max && current.value > d.weight {
          newW := current.value;
        }
        changed := current != Some(newW);
        ghost var start := ops;
        if current.Some? && current.value != newW {
          ops := ops + [DeleteOut(Weighted(d.id, current.value)), DeleteIn(Weighted(d.id, current.value))];
        }
        ops := ops + [PutEdge(d.id, newW), PutOut(Weighted(d.id, newW)), PutIn(Weighted(d.id, newW))];
        assert ops == start + DeltaOps(current, d);
        overlay := overlay[d.id := Some(newW)];
    }

    /** Applies deltas in order and counts those that change the store. */
    method ApplyAllDeltas(st: State, deltas: seq<EdgeDelta>) returns (changed: nat)
      modifies this
      ensures Contents() == AddDeltas(st, old(Contents()), deltas)
      ensures changed == Reported(st, old(Contents()), deltas)
    {
      changed := 0;
      for i := 0 to |deltas|
        invariant Contents() == AddDeltas(st, old(Contents()), deltas[..i])
        invariant changed == Reported(st, old(Contents()), deltas[..i])
      {
        assert deltas[..i + 1][..i] == deltas[..i];
        var c := ApplyEdgeDelta(st, deltas[i]);
        if c {
          changed := changed + 1;
        }
      }
      assert deltas[..|deltas|] == deltas;
    }
  }

  // ---- One batch is one delta at a time ----

  /** Committing each delta as a batch of its own, before the next is computed. */
  function OneByOne(st: State, deltas: seq<EdgeDelta>): State
    decreases |deltas|
  {
    if deltas == [] then st
    else
      var before := OneByOne(st, deltas[..|deltas| - 1]);
      var d := deltas[|deltas| - 1];
      ApplyAll(before, DeltaOps(GetWeight(before, d.id), d))
  }

  /** How many of the deltas changed the graph when applied one at a time. */
  function ChangeCount(edges: map<EdgeId, Weight>, deltas: seq<EdgeDelta>): nat
    decreases |deltas|
  {
    if deltas == [] then 0
    else
      var before := Effects(edges, deltas[..|deltas| - 1]);
      ChangeCount(edges, deltas[..|deltas| - 1]) + if Effect(before, deltas[|deltas| - 1]) != before then 1 else 0
  }

  lemma ApplyNone(st: State)
    ensures ApplyAll(st, []) == st
  {
  }

  lemma ApplyTwo(st: State, a: Op, b: Op)
    ensures ApplyAll(st, [a, b]) == Apply(Apply(st, a), b)
  {
    ApplyAllOne(st, a);
    ApplyAllSnoc(st, [a], b);
    assert [a] + [b] == [a, b];
  }

  lemma ApplyThree(st: State, a: Op, b: Op, c: Op)
    ensures ApplyAll(st, [a, b, c]) == Apply(Apply(Apply(st, a), b), c)
  {
    ApplyTwo(st, a, b);
    ApplyAllSnoc(st, [a, b], c);
    assert [a, b] + [c] == [a, b, c];
  }

  lemma DeleteOpsEffect(st: State, id: EdgeId, w0: Weight)
    ensures ApplyAll(st, [DeleteEdge(id), DeleteOut(Weighted(id, w0)), DeleteIn(Weighted(id, w0))])
         == st.(edges := st.edges - {id}, outs := st.outs - {Weighted(id, w0)}, ins := st.ins - {Weighted(id, w0)})
  {
    hide ApplyAll;
    ApplyThree(st, DeleteEdge(id), DeleteOut(Weighted(id, w0)), DeleteIn(Weighted(id, w0)));
    var s1 := Apply(st, DeleteEdge(id));
    assert s1 == st.(edges := st.edges - {id});
    var s2 := Apply(s1, DeleteOut(Weighted(id, w0)));
    assert s2 == s1.(outs := st.outs - {Weighted(id, w0)});
  }

  lemma UpsertOpsEffect(st: State, id: EdgeId, w: Weight)
    ensures ApplyAll(st, [PutEdge(id, w), PutOut(Weighted(id, w)), PutIn(Weighted(id, w))])
         == st.(edges := st.edges[id := w], outs := st.outs + {Weighted(id, w)}, ins := st.ins + {Weighted(id, w)})
  {
    hide ApplyAll;
    ApplyThree(st, PutEdge(id, w), PutOut(Weighted(id, w)), PutIn(Weighted(id, w)));
    var s1 := Apply(st, PutEdge(id, w));
    assert s1 == st.(edges := st.edges[id := w]);
    var s2 := Apply(s1, PutOut(Weighted(id, w)));
    assert s2 == s1.(outs := st.outs + {Weighted(id, w)});
  }

  lemma ReweighOpsEffect(st: State, id: EdgeId, w0: Weight, w: Weight)
    ensures var dels := [DeleteOut(Weighted(id, w0)), DeleteIn(Weighted(id, w0))];
      var puts := [PutEdge(id, w), PutOut(Weighted(id, w)), PutIn(Weighted(id, w))];
      ApplyAll(st, dels + puts)
      == st.(edges := st.edges[id := w],
             outs := st.outs - {Weighted(id, w0)} + {Weighted(id, w)},
             ins := st.ins - {Weighted(id, w0)} + {Weighted(id, w)})
  {
    hide ApplyAll;
    var dels := [DeleteOut(Weighted(id, w0)), DeleteIn(Weighted(id, w0))];
    ApplyTwo(st, dels[0], dels[1]);
    ApplyAllConcat(st, dels, [PutEdge(id, w), PutOut(Weighted(id, w)), PutIn(Weighted(id, w))]);
    UpsertOpsEffect(ApplyAll(st, dels), id, w);
  }

  /** The adjacency keys of an edge. */
  function KeysOf(id: EdgeId, weight: Option<Weight>): set<Weighted> {
    match weight
    case None => {}
    case Some(w) => {Weighted(id, w)}
  }

  /** The store after one edge's weight moved from `current` to `after` in all three
      records. */
  function Moved(st: State, id: EdgeId, current: Option<Weight>, after: Option<Weight>): State {
    st.(edges := if after == None then st.edges - {id} else st.edges[id := after.value],
        outs := st.outs - KeysOf(id, current) + KeysOf(id, after),
        ins := st.ins - KeysOf(id, current) + KeysOf(id, after))
  }

  /** One delta's operations move the three records of its edge together and touch no
      other record, provided the edge's old keys are present or gone as `current` says. */
  lemma DeltaOpsMove(st: State, current: Option<Weight>, d: EdgeDelta)
    requires current == GetWeight(st, d.id)
    ensures var after := ApplyAll(st, DeltaOps(current, d));
      && after == st.(edges := Effect(st.edges, d), outs := after.outs, ins := after.ins)
      && (Consistent(st) ==> after == Moved(st, d.id, current, After(current, d)))
  {
    hide ApplyAll;
    match d.op
    case Delete =>
      match current {
        case None =>
          assert st.edges - {d.id} == st.edges;
          ApplyNone(st);
          assert st.outs - {} + {} == st.outs && st.ins - {} + {} == st.ins;
        case Some(w0) =>
          DeleteOpsEffect(st, d.id, w0);
          assert forall s: set<Weighted> :: s + {} == s;
      }
    case Upsert(merge) =>
      var w := Merged(current, merge, d.weight);
      if current.Some? && current.value != w {
        ReweighOpsEffect(st, d.id, current.value, w);
      } else {
        var puts := [PutEdge(d.id, w), PutOut(Weighted(d.id, w)), PutIn(Weighted(d.id, w))];
        assert [] + puts == puts;
        UpsertOpsEffect(st, d.id, w);
        assert st.outs + {Weighted(d.id, w)} == st.outs - KeysOf(d.id, current) + {Weighted(d.id, w)};
        assert st.ins + {Weighted(d.id, w)} == st.ins - KeysOf(d.id, current) + {Weighted(d.id, w)};
      }
  }

  lemma MovedConsistent(st: State, id: EdgeId, after: Option<Weight>)
    requires Consistent(st)
    ensures Consistent(Moved(st, id, GetWeight(st, id), after))
  {
    var m := Moved(st, id, GetWeight(st, id), after);
    forall k: Weighted
      ensures (k in m.outs <==> IsEdge(m, k)) && (k in m.ins <==> IsEdge(m, k))
    {
      assert k in st.outs <==> IsEdge(st, k);
      assert k in st.ins <==> IsEdge(st, k);
    }
  }

  lemma DeltaOpsEffect(st: State, current: Option<Weight>, d: EdgeDelta)
    requires current == GetWeight(st, d.id)
    ensures var after := ApplyAll(st, DeltaOps(current, d));
      && after == st.(edges := Effect(st.edges, d), outs := after.outs, ins := after.ins)
      && (Consistent(st) ==> Consistent(after))
  {
    DeltaOpsMove(st, current, d);
    if Consistent(st) {
      MovedConsistent(st, d.id, After(current, d));
    }
  }

  /** The overlay knows what the batch so far will have written. */
  ghost predicate OverlayTracks(st: State, p: Pending) {
    forall id :: Current(st, p.overlay, id) == GetWeight(ApplyAll(st, p.ops), id)
  }

  lemma AddDeltaTracks(st: State, p: Pending, d: EdgeDelta)
    requires OverlayTracks(st, p)
    ensures OverlayTracks(st, AddDelta(st, p, d))
    ensures ApplyAll(st, AddDelta(st, p, d).ops)
         == ApplyAll(ApplyAll(st, p.ops), DeltaOps(GetWeight(ApplyAll(st, p.ops), d.id), d))
  {
    var current := Current(st, p.overlay, d.id);
    var mid := ApplyAll(st, p.ops);
    ApplyAllConcat(st, p.ops, DeltaOps(current, d));
    DeltaOpsEffect(mid, current, d);
    var q := AddDelta(st, p, d);
    forall id
      ensures Current(st, q.overlay, id) == GetWeight(ApplyAll(st, q.ops), id)
    {
      assert Current(st, p.overlay, id) == GetWeight(mid, id);
    }
  }

  /** One batch built with the overlay leaves the same store as the deltas applied one at a
      time, from any store. */
  lemma {:induction false} BatchIsOneByOne(st: State, deltas: seq<EdgeDelta>)
    ensures OverlayTracks(st, AddDeltas(st, NoDeltas, deltas))
    ensures ApplyAll(st, AddDeltas(st, NoDeltas, deltas).ops) == OneByOne(st, deltas)
    decreases |deltas|
  {
    if deltas != [] {
      var n := |deltas| - 1;
      BatchIsOneByOne(st, deltas[..n]);
      AddDeltaTracks(st, AddDeltas(st, NoDeltas, deltas[..n]), deltas[n]);
    }
  }

  /** The batch does to the graph what the deltas mean, changes no other record, keeps the
      three records of every edge in step, and counts the deltas that changed the graph. */
  lemma {:induction false} BatchEffect(st: State, deltas: seq<EdgeDelta>)
    ensures var after := ApplyAll(st, AddDeltas(st, NoDeltas, deltas).ops);
      && after == st.(edges := Effects(st.edges, deltas), outs := after.outs, ins := after.ins)
      && (Consistent(st) ==> Consistent(after))
    ensures Reported(st, NoDeltas, deltas) == ChangeCount(st.edges, deltas)
    decreases |deltas|
  {
    if deltas != [] {
      var n := |deltas| - 1;
      var p, d := AddDeltas(st, NoDeltas, deltas[..n]), deltas[n];
      BatchEffect(st, deltas[..n]);
      BatchIsOneByOne(st, deltas[..n]);
      BatchIsOneByOne(st, deltas);
      var mid := ApplyAll(st, p.ops);
      DeltaOpsEffect(mid, GetWeight(mid, d.id), d);
      assert Current(st, p.overlay, d.id) == GetWeight(mid, d.id);
      ChangesIsEffect(mid, d);
    }
  }

  /** A delta reports a change exactly when the graph is different after it. */
  lemma ChangesIsEffect(st: State, d: EdgeDelta)
    ensures Changes(GetWeight(st, d.id), d) <==> Effect(st.edges, d) != st.edges
  {
    var before, after := GetWeight(st, d.id), Effect(st.edges, d);
    assert After(before, d) == if d.id in after then Some(after[d.id]) else None;
    if after != st.edges {
      var id :| (id in after) != (id in st.edges) || (id in after && after[id] != st.edges[id]);
      assert id == d.id;
    }
  }

  // ---- The graph handle ----

  datatype EdgeUpsert = EdgeUpsert(src: Text, dst: Text, weight: Weight, etype: Text)

  datatype EdgeRef = EdgeRef(src: Text, dst: Text, etype: Text)

  function RefId(graph: Text, e: EdgeRef): EdgeId {
    EdgeId(graph, e.src, e.dst, e.etype)
  }

  function UpsertDeltas(graph: Text, edges: seq<EdgeUpsert>, merge: Merge): seq<EdgeDelta> {
    seq(|edges|, i requires 0 <= i < |edges| =>
      EdgeDelta(EdgeId(graph, edges[i].src, edges[i].dst, edges[i].etype), edges[i].weight, EdgeOp.Upsert(merge)))
  }

  function DeleteDeltas(graph: Text, edges: seq<EdgeRef>): seq<EdgeDelta> {
    seq(|edges|, i requires 0 <= i < |edges| => EdgeDelta(RefId(graph, edges[i]), 0, EdgeOp.Delete))
  }

  // ---- What the handle promises, identity by identity ----

  ghost predicate SameEdge(before: map<EdgeId, Weight>, after: map<EdgeId, Weight>, id: EdgeId) {
    (id in after <==> id in before) && (id in before ==> after[id] == before[id])
  }

  predicate Names(graph: Text, e: EdgeUpsert, id: EdgeId) {
    id.graph == graph && id.src == e.src && id.dst == e.dst && id.etype == e.etype
  }

  /** The last upsert that names the identity. */
  ghost predicate IsLastNamed(graph: Text, edges: seq<EdgeUpsert>, id: EdgeId, i: nat) {
    && i < |edges| && Names(graph, edges[i], id)
    && forall j :: i < j < |edges| ==> !Names(graph, edges[j], id)
  }

  /** The largest of the old weight and the listed ones. */
  ghost predicate IsLargest(before: map<EdgeId, Weight>, graph: Text, edges: seq<EdgeUpsert>, id: EdgeId, w: Weight) {
    && (forall i :: 0 <= i < |edges| && Names(graph, edges[i], id) ==> edges[i].weight <= w)
    && (id in before ==> before[id] <= w)
    && ((id in before && before[id] == w) || exists i :: 0 <= i < |edges| && Names(graph, edges[i], id) && edges[i].weight == w)
  }

  /** What upserts make of one identity: nothing if none names it; the last weight under `Set`;
      under `Max` the largest. */
  ghost predicate Upserted(before: map<EdgeId, Weight>, after: map<EdgeId, Weight>, graph: Text, edges: seq<EdgeUpsert>,
                           merge: Merge, id: EdgeId) {
    if forall i :: 0 <= i < |edges| ==> !Names(graph, edges[i], id) then SameEdge(before, after, id)
    else
      && id in after
      && match merge
         case Set => exists i: nat :: IsLastNamed(graph, edges, id, i) && edges[i].weight == after[id]
         case Max => IsLargest(before, graph, edges, id, after[id])
  }

  /** What deletes make of one identity: it is gone if one of them names it, else as before. */
  ghost predicate DeletedAt(before: map<EdgeId, Weight>, after: map<EdgeId, Weight>, graph: Text, refs: seq<EdgeRef>, id: EdgeId) {
    if exists i :: 0 <= i < |refs| && id == EdgeId(graph, refs[i].src, refs[i].dst, refs[i].etype) then id !in after
    else SameEdge(before, after, id)
  }

  lemma {:induction false} UpsertsMean(before: map<EdgeId, Weight>, graph: Text, edges: seq<EdgeUpsert>, merge: Merge, id: EdgeId)
    ensures Upserted(before, Effects(before, UpsertDeltas(graph, edges, merge)), graph, edges, merge, id)
    decreases |edges|
  {
    hide Effects;
    if edges == [] {
      assert UpsertDeltas(graph, edges, merge) == [];
      NoEffect(before);
    } else {
      var n := |edges| - 1;
      var past, e := edges[..n], edges[n];
      UpsertsMean(before, graph, past, merge, id);
      var d := EdgeDelta(EdgeId(graph, e.src, e.dst, e.etype), e.weight, EdgeOp.Upsert(merge));
      assert UpsertDeltas(graph, edges, merge) == UpsertDeltas(graph, past, merge) + [d];
      EffectsSnoc(before, UpsertDeltas(graph, past, merge), d);
      UpsertOneMore(before, Effects(before, UpsertDeltas(graph, past, merge)), graph, past, e, merge, id);
      assert edges == past + [e];
    }
  }

  /** One more upsert. */
  lemma UpsertOneMore(before: map<EdgeId, Weight>, mid: map<EdgeId, Weight>, graph: Text, past: seq<EdgeUpsert>, e: EdgeUpsert,
                      merge: Merge, id: EdgeId)
    requires Upserted(before, mid, graph, past, merge, id)
    ensures var d := EdgeDelta(EdgeId(graph, e.src, e.dst, e.etype), e.weight, EdgeOp.Upsert(merge));
            Upserted(before, Effect(mid, d), graph, past + [e], merge, id)
  {
    var d := EdgeDelta(EdgeId(graph, e.src, e.dst, e.etype), e.weight, EdgeOp.Upsert(merge));
    var after, all := Effect(mid, d), past + [e];
    assert forall i :: 0 <= i < |past| ==> all[i] == past[i];
    if Names(graph, e, id) {
      assert Names(graph, all[|past|], id) && id == d.id;
      if merge == Set {
        assert IsLastNamed(graph, all, id, |past|);
      } else {
        LargestOneMore(before, mid, graph, past, e, id);
      }
    } else {
      assert SameEdge(mid, after, id);
      OtherOneMore(before, mid, after, graph, past, e, merge, id);
    }
  }

  lemma LargestOneMore(before: map<EdgeId, Weight>, mid: map<EdgeId, Weight>, graph: Text, past: seq<EdgeUpsert>, e: EdgeUpsert,
                       id: EdgeId)
    requires Upserted(before, mid, graph, past, Max, id) && Names(graph, e, id)
    ensures IsLargest(before, graph, past + [e], id, Merged(if id in mid then Some(mid[id]) else None, Max, e.weight))
  {
    var all := past + [e];
    var w := Merged(if id in mid then Some(mid[id]) else None, Max, e.weight);
    assert all[|past|] == e && forall i :: 0 <= i < |past| ==> all[i] == past[i];
    if w != e.weight && !(id in before && before[id] == w) {
      var i :| 0 <= i < |past| && Names(graph, past[i], id) && past[i].weight == w;
      assert all[i] == past[i];
    }
  }

  lemma OtherOneMore(before: map<EdgeId, Weight>, mid: map<EdgeId, Weight>, after: map<EdgeId, Weight>, graph: Text,
                     past: seq<EdgeUpsert>, e: EdgeUpsert, merge: Merge, id: EdgeId)
    requires Upserted(before, mid, graph, past, merge, id) && !Names(graph, e, id) && SameEdge(mid, after, id)
    ensures Upserted(before, after, graph, past + [e], merge, id)
  {
    var all := past + [e];
    assert all[|past|] == e && forall i :: 0 <= i < |past| ==> all[i] == past[i];
    if i :| 0 <= i < |past| && Names(graph, past[i], id) {
      assert Names(graph, all[i], id);
      if merge == Set {
        var k: nat :| IsLastNamed(graph, past, id, k) && past[k].weight == mid[id];
        assert IsLastNamed(graph, all, id, k);
      } else if !(id in before && before[id] == mid[id]) {
        var k :| 0 <= k < |past| && Names(graph, past[k], id) && past[k].weight == mid[id];
        assert all[k] == past[k];
      }
    }
  }

  lemma DeletesMean(before: map<EdgeId, Weight>, graph: Text, refs: seq<EdgeRef>, id: EdgeId)
    ensures DeletedAt(before, before - DeletedIds(graph, refs), graph, refs, id)
  {
    if i :| 0 <= i < |refs| && id == EdgeId(graph, refs[i].src, refs[i].dst, refs[i].etype) {
      assert refs[i] in refs;
    }
  }

  /** The store with a new graph: other records as before, the three records of every edge
      in step if they were. */
  ghost predicate GraphBecomes(before: State, after: State, edges: map<EdgeId, Weight>) {
    && after == before.(edges := edges, outs := after.outs, ins := after.ins)
    && (Consistent(before) ==> Consistent(after))
  }

  /** A batch committed and made durable; nothing at all for an empty one. */
  ghost predicate Wrote(log: seq<Batch>, durable: nat, log': seq<Batch>, durable': nat, batch: Batch) {
    if batch == [] then log' == log && durable' == durable else log' == log + [batch] && durable' == |log'|
  }

  /** Commits a batch and makes it durable; an empty one is not written. */
  method Write(db: Database, batch: Batch)
    requires db.Valid()
    modifies db
    ensures db.Valid() && db.View() == ApplyAll(old(db.View()), batch)
    ensures Wrote(old(db.log), old(db.durable), db.log, db.durable, batch)
  {
    if batch != [] {
      db.Commit(batch);
      db.Flush();
    }
  }

  method UpsertEdges(db: Database, graph: Text, edges: seq<EdgeUpsert>, merge: Merge)
    returns (r: Result<nat, EvidenceError>)
    requires db.Valid()
    modifies db
    ensures db.Valid()
    ensures var deltas := UpsertDeltas(graph, edges, merge);
      if edges != [] && !db.writer then r == Err(NotWriter) && db.log == old(db.log) && db.durable == old(db.durable)
      else
        && Wrote(old(db.log), old(db.durable), db.log, db.durable, AddDeltas(old(db.View()), NoDeltas, deltas).ops)
        && GraphBecomes(old(db.View()), db.View(), Effects(old(db.View()).edges, deltas))
        && (forall id :: Upserted(old(db.View()).edges, db.View().edges, graph, edges, merge, id))
        && r == Ok(ChangeCount(old(db.View()).edges, deltas))
  {
    hide AddDeltas, Effects, ChangeCount, Reported, ApplyAll, Consistent, Replay, Upserted;
    forall id
      ensures Upserted(db.View().edges, Effects(db.View().edges, UpsertDeltas(graph, edges, merge)), graph, edges, merge, id)
    {
      UpsertsMean(db.View().edges, graph, edges, merge, id);
    }
    if edges == [] {
      assert UpsertDeltas(graph, edges, merge) == [];
      NoEffect(db.View().edges);
      NoOps(db.View());
      return Ok(0);
    }
    if !db.writer {
      return Err(NotWriter);
    }
    var st := db.Read();
    var batch := new EdgeBatch();
    var changed := batch.ApplyAllDeltas(st, UpsertDeltas(graph, edges, merge));
    BatchEffect(st, UpsertDeltas(graph, edges, merge));
    Write(db, batch.ops);
    return Ok(changed);
  }

  method DeleteEdges(db: Database, graph: Text, edges: seq<EdgeRef>) returns (r: Result<nat, EvidenceError>)
    requires db.Valid()
    modifies db
    ensures db.Valid()
    ensures
      if edges != [] && !db.writer then r == Err(NotWriter) && db.log == old(db.log) && db.durable == old(db.durable)
      else
        && Wrote(old(db.log), old(db.durable), db.log, db.durable,
                 AddDeltas(old(db.View()), NoDeltas, DeleteDeltas(graph, edges)).ops)
        && GraphBecomes(old(db.View()), db.View(), old(db.View()).edges - DeletedIds(graph, edges))
        && (forall id :: DeletedAt(old(db.View()).edges, db.View().edges, graph, edges, id))
        && r == Ok(|old(db.View()).edges| - |db.View().edges|)
  {
    hide AddDeltas, Effects, ChangeCount, Reported, ApplyAll, Consistent, Replay, DeletedAt;
    DeletesRemove(db.View().edges, graph, edges);
    forall id
      ensures DeletedAt(db.View().edges, db.View().edges - DeletedIds(graph, edges), graph, edges, id)
    {
      DeletesMean(db.View().edges, graph, edges, id);
    }
    if edges == [] {
      assert DeleteDeltas(graph, edges) == [];
      NoOps(db.View());
      return Ok(0);
    }
    if !db.writer {
      return Err(NotWriter);
    }
    var st := db.Read();
    var batch := new EdgeBatch();
    var removed := batch.ApplyAllDeltas(st, DeleteDeltas(graph, edges));
    BatchEffect(st, DeleteDeltas(graph, edges));
    Write(db, batch.ops);
    return Ok(removed);
  }

  /** Upserts, then deletes, in one batch. */
  method MutateEdges(db: Database, graph: Text, upserts: seq<EdgeUpsert>, deletes: seq<EdgeRef>, merge: Merge)
    returns (r: Result<(nat, nat), EvidenceError>)
    requires db.Valid()
    modifies db
    ensures db.Valid()
    ensures
      if (upserts != [] || deletes != []) && !db.writer then r == Err(NotWriter) && db.log == old(db.log) && db.durable == old(db.durable)
      else
        var before := old(db.View()).edges;
        var upserted := Effects(before, UpsertDeltas(graph, upserts, merge));
        && Wrote(old(db.log), old(db.durable), db.log, db.durable,
                 AddDeltas(old(db.View()), NoDeltas, UpsertDeltas(graph, upserts, merge) + DeleteDeltas(graph, deletes)).ops)
        && GraphBecomes(old(db.View()), db.View(), upserted - DeletedIds(graph, deletes))
        && (forall id :: Upserted(before, upserted, graph, upserts, merge, id))
        && (forall id :: DeletedAt(upserted, db.View().edges, graph, deletes, id))
        && r == Ok((ChangeCount(before, UpsertDeltas(graph, upserts, merge)), |upserted| - |db.View().edges|))
  {
    hide AddDeltas, Effects, ChangeCount, Reported, ApplyAll, Consistent, Replay, UpsertDeltas, DeleteDeltas, DeletedIds,
         GraphBecomes, Upserted, DeletedAt;
    MutateMeans(db.View().edges, graph, upserts, deletes, merge);
    ghost var ups, dels := UpsertDeltas(graph, upserts, merge), DeleteDeltas(graph, deletes);
    if upserts == [] && deletes == [] {
      MutateNone(db.View(), graph, merge);
      return Ok((0, 0));
    }
    if !db.writer {
      return Err(NotWriter);
    }
    var st := db.Read();
    var batch := new EdgeBatch();
    var changed := batch.ApplyAllDeltas(st, UpsertDeltas(graph, upserts, merge));
    var removed := batch.ApplyAllDeltas(st, DeleteDeltas(graph, deletes));
    MutateEffect(st, graph, upserts, deletes, merge);
    Write(db, batch.ops);
    return Ok((changed, removed));
  }

  lemma MutateMeans(before: map<EdgeId, Weight>, graph: Text, upserts: seq<EdgeUpsert>, deletes: seq<EdgeRef>, merge: Merge)
    ensures var upserted := Effects(before, UpsertDeltas(graph, upserts, merge));
      && (forall id :: Upserted(before, upserted, graph, upserts, merge, id))
      && (forall id :: DeletedAt(upserted, upserted - DeletedIds(graph, deletes), graph, deletes, id))
  {
    hide Effects, UpsertDeltas, DeletedIds, Upserted, DeletedAt;
    forall id
      ensures Upserted(before, Effects(before, UpsertDeltas(graph, upserts, merge)), graph, upserts, merge, id)
      ensures var upserted := Effects(before, UpsertDeltas(graph, upserts, merge));
              DeletedAt(upserted, upserted - DeletedIds(graph, deletes), graph, deletes, id)
    {
      UpsertsMean(before, graph, upserts, merge, id);
      DeletesMean(Effects(before, UpsertDeltas(graph, upserts, merge)), graph, deletes, id);
    }
  }

  lemma MutateNone(st: State, graph: Text, merge: Merge)
    ensures var ups, dels := UpsertDeltas(graph, [], merge), DeleteDeltas(graph, []);
      && AddDeltas(st, NoDeltas, ups + dels).ops == []
      && GraphBecomes(st, st, Effects(st.edges, ups) - DeletedIds(graph, []))
      && ChangeCount(st.edges, ups) == 0 && Effects(st.edges, ups) == st.edges == st.edges - DeletedIds(graph, [])
  {
    hide Consistent;
    NoOps(st);
    NoEffect(st.edges);
    NoDeletes(st.edges, graph);
    assert UpsertDeltas(graph, [], merge) + DeleteDeltas(graph, []) == [];
  }

  /** What the batch of a mutation is and does, and what its two loops report. */
  lemma MutateEffect(st: State, graph: Text, upserts: seq<EdgeUpsert>, deletes: seq<EdgeRef>, merge: Merge)
    ensures var ups, dels := UpsertDeltas(graph, upserts, merge), DeleteDeltas(graph, deletes);
      var upserted := Effects(st.edges, ups);
      var half := AddDeltas(st, NoDeltas, ups);
      var batch := AddDeltas(st, half, dels).ops;
      && batch == AddDeltas(st, NoDeltas, ups + dels).ops
      && GraphBecomes(st, ApplyAll(st, batch), upserted - DeletedIds(graph, deletes))
      && ApplyAll(st, batch).edges == upserted - DeletedIds(graph, deletes)
      && Reported(st, NoDeltas, ups) == ChangeCount(st.edges, ups)
      && Reported(st, half, dels) == |upserted| - |ApplyAll(st, batch).edges|
  {
    hide AddDeltas, Effects, ChangeCount, Reported, ApplyAll, Consistent, UpsertDeltas, DeleteDeltas, DeletedIds;
    var ups, dels := UpsertDeltas(graph, upserts, merge), DeleteDeltas(graph, deletes);
    DeletesRemove(Effects(st.edges, ups), graph, deletes);
    BatchEffectTwo(st, ups, dels);
    AddDeltasConcat(st, NoDeltas, ups, dels);
  }

  function DeletedIds(graph: Text, edges: seq<EdgeRef>): set<EdgeId> {
    set e | e in edges :: RefId(graph, e)
  }

  lemma NoOps(st: State)
    ensures AddDeltas(st, NoDeltas, []).ops == []
  {
  }

  lemma NoEffect(edges: map<EdgeId, Weight>)
    ensures Effects(edges, []) == edges && ChangeCount(edges, []) == 0
  {
  }

  lemma EffectsSnoc(edges: map<EdgeId, Weight>, deltas: seq<EdgeDelta>, d: EdgeDelta)
    ensures Effects(edges, deltas + [d]) == Effect(Effects(edges, deltas), d)
    ensures ChangeCount(edges, deltas + [d])
         == ChangeCount(edges, deltas) + if Effect(Effects(edges, deltas), d) != Effects(edges, deltas) then 1 else 0
  {
    assert (deltas + [d])[..|deltas|] == deltas;
  }

  /** Deleting removes exactly the listed edges, and the count of changes is the drop in the
      number of edges: a missing or repeated edge counts nothing. */
  lemma {:induction false} DeletesRemove(edges: map<EdgeId, Weight>, graph: Text, refs: seq<EdgeRef>)
    ensures Effects(edges, DeleteDeltas(graph, refs)) == edges - DeletedIds(graph, refs)
    ensures ChangeCount(edges, DeleteDeltas(graph, refs)) == |edges| - |edges - DeletedIds(graph, refs)|
    decreases |refs|
  {
    hide Effects, ChangeCount, DeleteDeltas, DeletedIds;
    if refs == [] {
      NoDeletes(edges, graph);
      NoEffect(edges);
    } else {
      var n := |refs| - 1;
      DeletesRemove(edges, graph, refs[..n]);
      var d := EdgeDelta(RefId(graph, refs[n]), 0, EdgeOp.Delete);
      DeleteDeltasSnoc(graph, refs);
      EffectsSnoc(edges, DeleteDeltas(graph, refs[..n]), d);
      DeletedIdsSnoc(edges, graph, refs);
      RemoveOne(edges - DeletedIds(graph, refs[..n]), RefId(graph, refs[n]));
    }
  }

  lemma NoDeletes(edges: map<EdgeId, Weight>, graph: Text)
    ensures DeleteDeltas(graph, []) == [] && edges - DeletedIds(graph, []) == edges
  {
  }

  lemma DeleteDeltasSnoc(graph: Text, refs: seq<EdgeRef>)
    requires refs != []
    ensures var n := |refs| - 1;
      DeleteDeltas(graph, refs) == DeleteDeltas(graph, refs[..n]) + [EdgeDelta(RefId(graph, refs[n]), 0, EdgeOp.Delete)]
  {
  }

  lemma DeletedIdsSnoc(edges: map<EdgeId, Weight>, graph: Text, refs: seq<EdgeRef>)
    requires refs != []
    ensures var n := |refs| - 1;
      edges - DeletedIds(graph, refs) == edges - DeletedIds(graph, refs[..n]) - {RefId(graph, refs[n])}
  {
    var n := |refs| - 1;
    assert refs == refs[..n] + [refs[n]];
    assert DeletedIds(graph, refs) == DeletedIds(graph, refs[..n]) + {RefId(graph, refs[n])};
  }

  lemma RemoveOne(edges: map<EdgeId, Weight>, id: EdgeId)
    ensures |edges - {id}| == |edges| - if id in edges then 1 else 0
    ensures edges - {id} != edges <==> id in edges
  {
    assert (edges - {id}).Keys == edges.Keys - {id};
    if id !in edges {
      assert edges - {id} == edges;
    }
  }

  /** Building one batch from two lists in turn is building it from their concatenation. */
  lemma {:induction false} AddDeltasConcat(st: State, p: Pending, a: seq<EdgeDelta>, b: seq<EdgeDelta>)
    ensures AddDeltas(st, AddDeltas(st, p, a), b) == AddDeltas(st, p, a + b)
    ensures Reported(st, p, a + b) == Reported(st, p, a) + Reported(st, AddDeltas(st, p, a), b)
    decreases |b|
  {
    hide AddDelta, Changes, Current;
    if b == [] {
      assert a + b == a;
    } else {
      var n := |b| - 1;
      AddDeltasConcat(st, p, a, b[..n]);
      assert (a + b)[..|a + b| - 1] == a + b[..n];
    }
  }

  lemma BatchEffectTwo(st: State, a: seq<EdgeDelta>, b: seq<EdgeDelta>)
    ensures var batch := AddDeltas(st, AddDeltas(st, NoDeltas, a), b).ops;
      && ApplyAll(st, batch) == st.(edges := Effects(Effects(st.edges, a), b), outs := ApplyAll(st, batch).outs,
                                    ins := ApplyAll(st, batch).ins)
      && (Consistent(st) ==> Consistent(ApplyAll(st, batch)))
    ensures Reported(st, NoDeltas, a) == ChangeCount(st.edges, a)
    ensures Reported(st, AddDeltas(st, NoDeltas, a), b) == ChangeCount(Effects(st.edges, a), b)
  {
    AddDeltasConcat(st, NoDeltas, a, b);
    EffectsConcat(st.edges, a, b);
    BatchEffect(st, a);
    BatchEffect(st, a + b);
  }

  lemma {:induction false} EffectsConcat(edges: map<EdgeId, Weight>, a: seq<EdgeDelta>, b: seq<EdgeDelta>)
    ensures Effects(edges, a + b) == Effects(Effects(edges, a), b)
    ensures ChangeCount(edges, a + b) == ChangeCount(edges, a) + ChangeCount(Effects(edges, a), b)
    decreases |b|
  {
    if b == [] {
      assert a + b == a;
    } else {
      var n := |b| - 1;
      EffectsConcat(edges, a, b[..n]);
      assert (a + b)[..|a + b| - 1] == a + b[..n];
    }
  }

  // ---- Dropping a graph ----

  function OtherGraphs(edges: map<EdgeId, Weight>, graph: Text): map<EdgeId, Weight> {
    map id | id in edges && id.graph != graph :: edges[id]
  }

  lemma OtherGraphsCount(edges: map<EdgeId, Weight>, graph: Text, dropped: set<EdgeId>)
    requires dropped == set id | id in edges && id.graph == graph
    ensures OtherGraphs(edges, graph) == edges - dropped
    ensures |OtherGraphs(edges, graph)| == |edges| - |dropped|
  {
    assert OtherGraphs(edges, graph).Keys == edges.Keys - dropped;
    assert dropped <= edges.Keys;
  }
}
