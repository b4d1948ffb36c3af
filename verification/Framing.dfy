/** The byte strings that are hashed for a leaf and for an idempotency fingerprint, and what
    they determine of the entries behind them. */
module Framing {
  import opened Bytes
  import opened Store
  import opened Chain

  const MaxLong := 0x1_0000_0000_0000_0000

  /** `<len as u64, big-endian> <bytes>`. */
  function Field(s: Text): Text {
    Be(|s| % MaxLong, 8) + s
  }

  predicate FitsField(s: Text) {
    |s| < MaxLong
  }

  function OpByte(op: EdgeOp): Byte {
    match op
    case Upsert(Set) => 0
    case Upsert(Max) => 1
    case Delete => 2
  }

  function EdgeBytes(e: EdgeDelta): Text {
    Field(e.id.graph) + (Field(e.id.src) + (Field(e.id.dst) + (Field(e.id.etype) + (Be(AsU64(e.weight), 8) + [OpByte(e.op)]))))
  }

  predicate FitsEdge(e: EdgeDelta) {
    FitsField(e.id.graph) && FitsField(e.id.src) && FitsField(e.id.dst) && FitsField(e.id.etype)
  }

  function EdgeListBytes(edges: seq<EdgeDelta>): Text {
    if edges == [] then [] else EdgeBytes(edges[0]) + EdgeListBytes(edges[1..])
  }

  function EntryBytes(e: EntryInput): Text {
    Field(e.etype) + (Field(e.payload) + (Field(e.at) + (Be(|e.edges| % MaxLong, 8) + EdgeListBytes(e.edges))))
  }

  predicate FitsEntry(e: EntryInput) {
    && FitsField(e.etype) && FitsField(e.payload) && FitsField(e.at) && |e.edges| < MaxLong
    && forall d :: d in e.edges ==> FitsEdge(d)
  }

  function EntryListBytes(entries: seq<EntryInput>): Text {
    if entries == [] then [] else EntryBytes(entries[0]) + EntryListBytes(entries[1..])
  }

  /** What the fingerprint of a keyed append hashes. */
  function FingerprintBytes(entries: seq<EntryInput>): Text {
    Be(|entries| % MaxLong, 8) + EntryListBytes(entries)
  }

  // ---- Fields ----

  lemma FieldPrefixFree(a: Text, x: Text, b: Text, y: Text)
    requires FitsField(a) && FitsField(b) && Field(a) + x == Field(b) + y
    ensures a == b && x == y
  {
    hide Be;
    Pow256Values();
    Associate(Be(|a|, 8), a, x);
    Associate(Be(|b|, 8), b, y);
    FixedPrefix(Be(|a|, 8), a + x, Be(|b|, 8), b + y);
    BeInjective(|a|, |b|, 8);
    FixedPrefix(a, x, b, y);
  }

  lemma CountPrefixFree(n: nat, x: Text, m: nat, y: Text)
    requires n < MaxLong && m < MaxLong && Be(n % MaxLong, 8) + x == Be(m % MaxLong, 8) + y
    ensures n == m && x == y
  {
    hide Be;
    Pow256Values();
    FixedPrefix(Be(n, 8), x, Be(m, 8), y);
    BeInjective(n, m, 8);
  }

  lemma FixedTail(w: Weight, op: EdgeOp, x: Text, w': Weight, op': EdgeOp, y: Text)
    requires (Be(AsU64(w), 8) + [OpByte(op)]) + x == (Be(AsU64(w'), 8) + [OpByte(op')]) + y
    ensures w == w' && op == op' && x == y
  {
    hide Be;
    Pow256Values();
    FixedPrefix(Be(AsU64(w), 8) + [OpByte(op)], x, Be(AsU64(w'), 8) + [OpByte(op')], y);
    FixedPrefix(Be(AsU64(w), 8), [OpByte(op)], Be(AsU64(w'), 8), [OpByte(op')]);
    BeInjective(AsU64(w), AsU64(w'), 8);
    SameU64(w, w');
    assert [OpByte(op)][0] == [OpByte(op')][0];
  }

  lemma SameU64(w: I64, w': I64)
    requires AsU64(w) == AsU64(w')
    ensures w == w'
  {
  }

  lemma Associate4(a: Text, b: Text, c: Text, d: Text, e: Text, x: Text)
    ensures (a + (b + (c + (d + e)))) + x == a + (b + (c + (d + (e + x))))
  {
  }

  lemma EdgePrefixFree(a: EdgeDelta, x: Text, b: EdgeDelta, y: Text)
    requires FitsEdge(a) && FitsEdge(b) && EdgeBytes(a) + x == EdgeBytes(b) + y
    ensures a == b && x == y
  {
    hide Field, Be, OpByte, FitsField;
    var ta, tb := Be(AsU64(a.weight), 8) + [OpByte(a.op)], Be(AsU64(b.weight), 8) + [OpByte(b.op)];
    Associate4(Field(a.id.graph), Field(a.id.src), Field(a.id.dst), Field(a.id.etype), ta, x);
    Associate4(Field(b.id.graph), Field(b.id.src), Field(b.id.dst), Field(b.id.etype), tb, y);
    var a3, b3 := Field(a.id.etype) + (ta + x), Field(b.id.etype) + (tb + y);
    var a2, b2 := Field(a.id.dst) + a3, Field(b.id.dst) + b3;
    FieldPrefixFree(a.id.graph, Field(a.id.src) + a2, b.id.graph, Field(b.id.src) + b2);
    FieldPrefixFree(a.id.src, a2, b.id.src, b2);
    FieldPrefixFree(a.id.dst, a3, b.id.dst, b3);
    FieldPrefixFree(a.id.etype, ta + x, b.id.etype, tb + y);
    FixedTail(a.weight, a.op, x, b.weight, b.op, y);
  }

  lemma {:induction false} EdgeListPrefixFree(a: seq<EdgeDelta>, x: Text, b: seq<EdgeDelta>, y: Text)
    requires |a| == |b| && (forall d :: d in a || d in b ==> FitsEdge(d))
    requires EdgeListBytes(a) + x == EdgeListBytes(b) + y
    ensures a == b && x == y
    decreases |a|
  {
    hide EdgeBytes, FitsEdge;
    if a == [] {
      assert [] + x == x && [] + y == y;
    } else {
      Associate(EdgeBytes(a[0]), EdgeListBytes(a[1..]), x);
      Associate(EdgeBytes(b[0]), EdgeListBytes(b[1..]), y);
      assert a[0] in a && b[0] in b;
      EdgePrefixFree(a[0], EdgeListBytes(a[1..]) + x, b[0], EdgeListBytes(b[1..]) + y);
      EdgeListPrefixFree(a[1..], x, b[1..], y);
      assert a == [a[0]] + a[1..] && b == [b[0]] + b[1..];
    }
  }

  lemma EntryPrefixFree(a: EntryInput, x: Text, b: EntryInput, y: Text)
    requires FitsEntry(a) && FitsEntry(b) && EntryBytes(a) + x == EntryBytes(b) + y
    ensures a == b && x == y
  {
    hide Field, Be, EdgeListBytes, FitsField, FitsEdge;
    var ea, eb := EdgeListBytes(a.edges), EdgeListBytes(b.edges);
    var na, nb := Be(|a.edges| % MaxLong, 8), Be(|b.edges| % MaxLong, 8);
    Associate4(Field(a.etype), Field(a.payload), Field(a.at), na, ea, x);
    Associate4(Field(b.etype), Field(b.payload), Field(b.at), nb, eb, y);
    var a2, b2 := Field(a.at) + (na + (ea + x)), Field(b.at) + (nb + (eb + y));
    FieldPrefixFree(a.etype, Field(a.payload) + a2, b.etype, Field(b.payload) + b2);
    FieldPrefixFree(a.payload, a2, b.payload, b2);
    FieldPrefixFree(a.at, na + (ea + x), b.at, nb + (eb + y));
    CountPrefixFree(|a.edges|, ea + x, |b.edges|, eb + y);
    EdgeListPrefixFree(a.edges, x, b.edges, y);
  }

  lemma {:induction false} EntryListInjective(a: seq<EntryInput>, b: seq<EntryInput>)
    requires |a| == |b| && (forall e :: e in a || e in b ==> FitsEntry(e)) && EntryListBytes(a) == EntryListBytes(b)
    ensures a == b
    decreases |a|
  {
    hide EntryBytes, FitsEntry;
    if a != [] {
      assert a[0] in a && b[0] in b;
      EntryPrefixFree(a[0], EntryListBytes(a[1..]), b[0], EntryListBytes(b[1..]));
      EntryListInjective(a[1..], b[1..]);
      assert a == [a[0]] + a[1..] && b == [b[0]] + b[1..];
    }
  }

  /** The fingerprint bytes determine the entries: a replay is told from a conflicting request
      exactly, but for a collision of the hash. */
  lemma FingerprintInjective(a: seq<EntryInput>, b: seq<EntryInput>)
    requires |a| < MaxLong && |b| < MaxLong && forall e :: e in a || e in b ==> FitsEntry(e)
    requires FingerprintBytes(a) == FingerprintBytes(b)
    ensures a == b
  {
    hide Be, FitsEntry, EntryListBytes;
    CountPrefixFree(|a|, EntryListBytes(a), |b|, EntryListBytes(b));
    EntryListInjective(a, b);
  }

  // ---- Leaves: edges in sorted order ----

  /** By graph, source, destination, type and operation; the weight does not take part. */
  predicate KeyLess(a: EdgeDelta, b: EdgeDelta) {
    if a.id.graph != b.id.graph then Less(a.id.graph, b.id.graph)
    else if a.id.src != b.id.src then Less(a.id.src, b.id.src)
    else if a.id.dst != b.id.dst then Less(a.id.dst, b.id.dst)
    else if a.id.etype != b.id.etype then Less(a.id.etype, b.id.etype)
    else OpByte(a.op) < OpByte(b.op)
  }

  predicate SameKey(a: EdgeDelta, b: EdgeDelta) {
    a.id == b.id && a.op == b.op
  }

  lemma KeyTotal(a: EdgeDelta, b: EdgeDelta)
    ensures KeyLess(a, b) || KeyLess(b, a) || SameKey(a, b)
    ensures !(KeyLess(a, b) && KeyLess(b, a)) && !KeyLess(a, a)
  {
    hide Less;
    LessTrichotomy(a.id.graph, b.id.graph);
    LessTrichotomy(a.id.src, b.id.src);
    LessTrichotomy(a.id.dst, b.id.dst);
    LessTrichotomy(a.id.etype, b.id.etype);
  }

  /** A stable sort: an edge goes after those not greater than it. */
  function InsertEdge(sorted: seq<EdgeDelta>, e: EdgeDelta): seq<EdgeDelta>
    decreases |sorted|
  {
    if sorted == [] || !KeyLess(e, sorted[|sorted| - 1]) then sorted + [e]
    else InsertEdge(sorted[..|sorted| - 1], e) + [sorted[|sorted| - 1]]
  }

  function SortEdges(edges: seq<EdgeDelta>): seq<EdgeDelta>
    decreases |edges|
  {
    if edges == [] then [] else InsertEdge(SortEdges(edges[..|edges| - 1]), edges[|edges| - 1])
  }

  /** What a leaf hashes, after its prefix byte. */
  function LeafBytes(e: EntryInput): Text {
    [0] + EntryBytes(e.(edges := SortEdges(e.edges)))
  }

  lemma {:induction false} InsertKeepsAll(sorted: seq<EdgeDelta>, e: EdgeDelta)
    ensures multiset(InsertEdge(sorted, e)) == multiset(sorted) + multiset{e}
    decreases |sorted|
  {
    hide KeyLess;
    if sorted != [] {
      var n := |sorted| - 1;
      assert sorted == sorted[..n] + [sorted[n]];
      InsertKeepsAll(sorted[..n], e);
    }
  }

  lemma {:induction false} SortKeepsAll(edges: seq<EdgeDelta>)
    ensures multiset(SortEdges(edges)) == multiset(edges)
    decreases |edges|
  {
    hide InsertEdge;
    if edges != [] {
      var n := |edges| - 1;
      assert edges == edges[..n] + [edges[n]];
      SortKeepsAll(edges[..n]);
      InsertKeepsAll(SortEdges(edges[..n]), edges[n]);
    }
  }

  lemma SortedFits(e: EntryInput)
    requires FitsEntry(e)
    ensures FitsEntry(e.(edges := SortEdges(e.edges)))
  {
    hide FitsField, FitsEdge, SortEdges;
    SortKeepsAll(e.edges);
    var s := SortEdges(e.edges);
    assert |multiset(s)| == |s| && |multiset(e.edges)| == |e.edges|;
    forall d | d in s
      ensures FitsEdge(d)
    {
      assert d in multiset(s);
    }
  }

  /** The leaf bytes determine type, payload, time, and the sorted edges, and nothing more. */
  lemma LeafDetermines(a: EntryInput, b: EntryInput)
    requires FitsEntry(a) && FitsEntry(b)
    ensures LeafBytes(a) == LeafBytes(b)
       <==> a.etype == b.etype && a.payload == b.payload && a.at == b.at && SortEdges(a.edges) == SortEdges(b.edges)
  {
    hide EntryBytes, FitsEntry, SortEdges;
    var sa, sb := a.(edges := SortEdges(a.edges)), b.(edges := SortEdges(b.edges));
    if LeafBytes(a) == LeafBytes(b) {
      FixedPrefix([0], EntryBytes(sa), [0], EntryBytes(sb));
      SortedFits(a);
      SortedFits(b);
      assert EntryBytes(sa) + [] == EntryBytes(sb) + [];
      EntryPrefixFree(sa, [], sb, []);
    }
  }

  lemma KeyTransitive(a: EdgeDelta, b: EdgeDelta, c: EdgeDelta)
    requires KeyLess(a, b) && KeyLess(b, c)
    ensures KeyLess(a, c)
  {
    hide Less;
    ThenLess(a.id.graph, b.id.graph, c.id.graph);
    ThenLess(a.id.src, b.id.src, c.id.src);
    ThenLess(a.id.dst, b.id.dst, c.id.dst);
    ThenLess(a.id.etype, b.id.etype, c.id.etype);
  }

  lemma ThenLess(a: Text, b: Text, c: Text)
    ensures Less(a, b) && Less(b, c) ==> Less(a, c) && a != c
  {
    LessIrreflexive(a);
    if Less(a, b) && Less(b, c) {
      LessTransitive(a, b, c);
    }
  }
}
