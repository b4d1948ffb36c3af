/** Adjacency scans: the edges at a node, read off a range of ordered byte keys. */
module Adjacency {
  import opened Bytes
  import opened Graph
  import opened Keys
  import opened Outcomes
  import opened Store

  // ---- Range scans ----

  /** What a range scan yields: the keys in `[start, end)`, ascending. */
  ghost predicate IsScan(m: Flat, start: Text, end: Text, keys: seq<Text>) {
    Ascending(keys) && (forall b :: b in keys <==> b in m && InRange(b, start, end))
  }

  lemma {:induction false} ListExists(texts: set<Text>)
    ensures exists s :: Ascending(s) && forall a :: a in s <==> a in texts
    decreases texts
  {
    hide Less;
    if texts == {} {
      assert Ascending([]);
    } else {
      HasLeast(texts);
      var least :| least in texts && forall b :: b in texts ==> AtMost(least, b);
      ListExists(texts - {least});
      var s :| Ascending(s) && forall a :: a in s <==> a in texts - {least};
      var all := [least] + s;
      assert forall j :: 0 <= j < |s| ==> s[j] in s && s[j] != least;
      assert Ascending(all);
      assert forall a :: a in all <==> a in texts;
    }
  }

  lemma ScanExists(m: Flat, start: Text, end: Text)
    ensures exists keys :: IsScan(m, start, end, keys)
  {
    hide InRange, Ascending;
    var texts := set b | b in m && InRange(b, start, end);
    ListExists(texts);
    var s :| Ascending(s) && forall a :: a in s <==> a in texts;
    assert IsScan(m, start, end, s);
  }

  /** The one list of keys in a range. */
  ghost function ScanKeys(m: Flat, start: Text, end: Text): (keys: seq<Text>)
    ensures IsScan(m, start, end, keys)
  {
    ScanExists(m, start, end);
    var keys :| IsScan(m, start, end, keys);
    keys
  }

  method ScanRange(m: Flat, start: Text, end: Text) returns (keys: seq<Text>)
    ensures IsScan(m, start, end, keys) && keys == ScanKeys(m, start, end)
  {
    hide ScanKeys, Ascending, InRange;
    keys := Sort(set b | b in m && InRange(b, start, end));
    AscendingUnique(keys, ScanKeys(m, start, end));
  }

  // ---- Decoding ----

  /** A neighbour with the weight and type of the edge to or from it. */
  datatype Neighbour = Neighbour(node: Text, weight: Weight, etype: Text)

  /** The length-prefixed segment at `pos`, and the position after it. */
  function Segment(buf: Text, pos: nat): (r: Option<(Text, nat)>)
    ensures r.Some? ==> pos + 4 <= r.value.1 <= |buf|
  {
    if pos + 4 > |buf| then None
    else
      var len := FromBe(buf[pos..pos + 4]);
      if pos + 4 + len > |buf| then None else Some((buf[pos + 4..pos + 4 + len], pos + 4 + len))
  }

  function DecodeTail(tail: Text): Option<Neighbour> {
    if |tail| < 8 then None
    else
      TailWeightFits(tail);
      match Segment(tail, 8)
      case None => None
      case Some((node, p)) =>
        match Segment(tail, p)
        case None => None
        case Some((etype, _)) => Some(Neighbour(node, WeightFromObe(tail[..8]), etype))
  }

  lemma TailWeightFits(tail: Text)
    requires |tail| >= 8
    ensures FromBe(tail[..8]) < 2 * SignBit
  {
    Pow256Values();
    FromBeBound(tail[..8]);
  }

  lemma SegmentAt(before: Text, s: Text, rest: Text)
    requires Short(s)
    ensures Segment(before + (Lp(s) + rest), |before|) == Some((s, |before| + 4 + |s|))
  {
    hide Be, FromBe, Pow256;
    Pow256Values();
    BeRoundTrip(|s|, 4);
    var n := |before|;
    var head := Be(|s|, 4);
    SplitSegment(before, head, s, rest);
  }

  lemma SplitSegment(before: Text, head: Text, s: Text, rest: Text)
    ensures var buf := before + ((head + s) + rest);
            var n := |before|;
            && buf[n..n + |head|] == head
            && buf[n + |head|..n + |head| + |s|] == s
  {
  }

  /** Every adjacency key decodes to the edge that wrote it. */
  lemma DecodeEncoded(w: Weight, v: Text, t: Text)
    requires Short(v) && Short(t)
    ensures DecodeTail(Tail(w, v, t)) == Some(Neighbour(v, w, t))
  {
    hide DecodeTail, Tail;
    TailThenMore(Neighbour(v, w, t), []);
    assert Tail(w, v, t) + [] == Tail(w, v, t);
  }

  lemma LpLength(s: Text)
    ensures |Lp(s)| == 4 + |s|
  {
  }

  // ---- The scan ----

  datatype Direction = Out | In

  function AdjacencyTag(dir: Direction): Byte {
    if dir == Out then OutTag else InTag
  }

  /** All adjacency keys of a node in one direction start with this. */
  function AdjacencyPrefix(tenant: Text, dir: Direction, graph: Text, node: Text): Text {
    Lp(tenant) + ([AdjacencyTag(dir)] + (Lp(graph) + Lp(node)))
  }

  /** The index entry of the edge between `node` and a neighbour. */
  function EdgeAt(dir: Direction, graph: Text, node: Text, n: Neighbour): Weighted {
    Weighted(EdgeId(graph, if dir == Out then node else n.node, if dir == Out then n.node else node, n.etype), n.weight)
  }

  function AdjacencyKey(dir: Direction, e: Weighted): Key {
    if dir == Out then OutKey(e) else InKey(e)
  }

  predicate FitsNeighbour(n: Neighbour) {
    Short(n.node) && Short(n.etype)
  }

  function After(b: Text, plen: nat): Text {
    if plen <= |b| then b[plen..] else []
  }

  function DecodeKeys(keys: seq<Text>, plen: nat): Option<seq<Neighbour>>
    decreases |keys|
  {
    if keys == [] then Some([])
    else
      var n := |keys| - 1;
      match DecodeKeys(keys[..n], plen)
      case None => None
      case Some(before) =>
        match DecodeTail(After(keys[n], plen))
        case None => None
        case Some(x) => Some(before + [x])
  }

  /** The keys under a prefix from an encoded floor on. */
  ghost function AdjacencyScan(m: Flat, prefix: Text, floor: Weight): seq<Text> {
    ScanKeys(m, prefix + WeightObe(floor), PrefixUpperBound(prefix))
  }

  /** A malformed key ends the scan with an error. */
  method ScanAdjacency(m: Flat, prefix: Text, floor: Weight) returns (r: Option<seq<Neighbour>>)
    ensures r == DecodeKeys(AdjacencyScan(m, prefix, floor), |prefix|)
  {
    hide DecodeTail, DecodeKeys, IsScan, PrefixUpperBound, WeightObe, ScanKeys;
    var start := prefix + WeightObe(floor);
    var end := ComputePrefixUpperBound(prefix);
    var keys := ScanRange(m, start, end);
    KeysInScan(m, prefix, floor, keys);
    var out: seq<Neighbour> := [];
    var i := 0;
    DecodeNone(keys, |prefix|);
    while i < |keys|
      invariant 0 <= i <= |keys|
      invariant DecodeKeys(keys[..i], |prefix|) == Some(out)
    {
      DecodeNext(keys, |prefix|, i);
      assert keys[i] in keys;
      var x := ReadTail(keys[i][|prefix|..]);
      if x == None {
        DecodeStops(keys, |prefix|, i + 1);
        return None;
      }
      out := out + [x.value];
      i := i + 1;
    }
    assert keys[..i] == keys;
    r := Some(out);
  }

  lemma KeysInScan(m: Flat, prefix: Text, floor: Weight, keys: seq<Text>)
    requires IsScan(m, prefix + WeightObe(floor), PrefixUpperBound(prefix), keys)
    ensures forall b :: b in keys ==> prefix <= b
  {
    hide PrefixUpperBound, WeightObe, InRange;
    forall b | b in keys
      ensures prefix <= b
    {
      InScanRange(prefix, floor, b);
    }
  }

  lemma DecodeNone(keys: seq<Text>, plen: nat)
    ensures DecodeKeys(keys[..0], plen) == Some([])
  {
  }

  lemma DecodeNext(keys: seq<Text>, plen: nat, i: nat)
    requires i < |keys|
    ensures var x := DecodeTail(After(keys[i], plen));
            var before := DecodeKeys(keys[..i], plen);
            DecodeKeys(keys[..i + 1], plen)
            == if before == None || x == None then None else Some(before.value + [x.value])
  {
    hide DecodeTail, After;
    TakeTake(keys, i, i + 1);
    assert keys[..i + 1][i] == keys[i];
  }

  /** The keys of an adjacency scan start with its prefix and are past its floor. */
  lemma InScanRange(prefix: Text, floor: Weight, b: Text)
    ensures InRange(b, prefix + WeightObe(floor), PrefixUpperBound(prefix))
       <==> prefix <= b && AtMost(prefix + WeightObe(floor), b)
  {
    hide PrefixUpperBound, WeightObe;
    RangeIsPrefix(b, prefix);
    if AtMost(prefix + WeightObe(floor), b) {
      ShorterAtMost(prefix, WeightObe(floor), b);
    }
    if prefix <= b {
      PrefixAtMost(prefix, b);
    }
  }

  lemma {:induction false} DecodeStops(keys: seq<Text>, plen: nat, i: nat)
    requires i <= |keys| && DecodeKeys(keys[..i], plen) == None
    ensures DecodeKeys(keys, plen) == None
    decreases |keys|
  {
    hide DecodeTail, After;
    if i == |keys| {
      TakeAll(keys);
    } else {
      var n := |keys| - 1;
      TakeTake(keys, i, n);
      DecodeStops(keys[..n], plen, i);
      DecodeNext(keys, plen, n);
      TakeAll(keys);
    }
  }

  lemma TakeAll(keys: seq<Text>)
    ensures keys[..|keys|] == keys
  {
  }

  lemma TakeTake(keys: seq<Text>, i: nat, n: nat)
    requires i <= n <= |keys|
    ensures keys[..n][..i] == keys[..i]
  {
  }

  /** Reads the weight, then two segments with a cursor. */
  method ReadTail(tail: Text) returns (r: Option<Neighbour>)
    ensures r == DecodeTail(tail)
  {
    if |tail| < 8 {
      return None;
    }
    TailWeightFits(tail);
    var w := WeightFromObe(tail[..8]);
    var p := 8;
    var node, etype;
    node, p := ReadLp(tail, p);
    if node == None {
      return None;
    }
    etype, p := ReadLp(tail, p);
    if etype == None {
      return None;
    }
    r := Some(Neighbour(node.value, w, etype.value));
  }

  method ReadLp(buf: Text, pos: nat) returns (s: Option<Text>, next: nat)
    ensures Segment(buf, pos) == if s == None then None else Some((s.value, next))
  {
    next := pos;
    if next + 4 > |buf| {
      return None, next;
    }
    var len := FromBe(buf[next..next + 4]);
    next := next + 4;
    if next + len > |buf| {
      return None, next;
    }
    s := Some(buf[next..next + len]);
    next := next + len;
  }

  // ---- What decodes ----

  lemma {:induction false} BeOfBytes(bytes: Text)
    ensures Be(FromBe(bytes), |bytes|) == bytes
    decreases |bytes|
  {
    if bytes != [] {
      var n := |bytes| - 1;
      BeOfBytes(bytes[..n]);
      assert bytes == bytes[..n] + [bytes[n]];
    }
  }

  /** A segment is read where there is one. */
  lemma SegmentIs(buf: Text, pos: nat)
    ensures match Segment(buf, pos)
            case None => true
            case Some((s, next)) => Short(s) && next <= |buf| && pos <= next && buf[pos..next] == Lp(s)
  {
    if pos + 4 <= |buf| {
      var size := buf[pos..pos + 4];
      BeOfBytes(size);
      FromBeBound(size);
      Pow256Values();
      if pos + 4 + FromBe(size) <= |buf| {
        var next := pos + 4 + FromBe(size);
        assert buf[pos..next] == size + buf[pos + 4..next];
      }
    }
  }

  /** What follows the prefix of a key decodes to a neighbour exactly if it starts with the bytes
      that are written for that neighbour. */
  lemma TailDecodesExactly(tail: Text, n: Neighbour)
    ensures DecodeTail(tail) == Some(n)
       <==> Short(n.node) && Short(n.etype) && Tail(n.weight, n.node, n.etype) <= tail
  {
    hide Segment, Lp, WeightObe, WeightFromObe;
    if DecodeTail(tail) == Some(n) {
      SegmentIs(tail, 8);
      var p := Segment(tail, 8).value.1;
      SegmentIs(tail, p);
      var q := Segment(tail, p).value.1;
      TailWeightFits(tail);
      WeightBytes(tail[..8]);
      assert tail == tail[..8] + (tail[8..p] + (tail[p..q] + tail[q..]));
      assert tail == Tail(n.weight, n.node, n.etype) + tail[q..];
    }
    if Short(n.node) && Short(n.etype) && Tail(n.weight, n.node, n.etype) <= tail {
      var rest := tail[|Tail(n.weight, n.node, n.etype)|..];
      assert tail == Tail(n.weight, n.node, n.etype) + rest;
      TailThenMore(n, rest);
    }
  }

  lemma WeightBytes(bytes: Text)
    requires |bytes| == 8 && FromBe(bytes) < 2 * SignBit
    ensures WeightObe(WeightFromObe(bytes)) == bytes
  {
    BeOfBytes(bytes);
  }

  lemma TailThenMore(n: Neighbour, rest: Text)
    requires Short(n.node) && Short(n.etype)
    ensures DecodeTail(Tail(n.weight, n.node, n.etype) + rest) == Some(n)
  {
    hide Segment, Lp, WeightObe, WeightFromObe;
    var w, node, etype := WeightObe(n.weight), Lp(n.node), Lp(n.etype);
    var tail := Tail(n.weight, n.node, n.etype) + rest;
    ObeRoundTrip(n.weight);
    assert tail == w + (node + (etype + rest)) && tail[..8] == w;
    SegmentAt(w, n.node, etype + rest);
    LpLength(n.node);
    assert tail == (w + node) + (etype + rest);
    SegmentAt(w + node, n.etype, rest);
  }

  /** A list of keys decodes exactly if each of them does, and then one by one, in order. */
  lemma {:induction false} KeysDecodeExactly(keys: seq<Text>, plen: nat)
    ensures DecodeKeys(keys, plen).Some? <==> forall i :: 0 <= i < |keys| ==> DecodeTail(After(keys[i], plen)).Some?
    ensures match DecodeKeys(keys, plen)
            case None => true
            case Some(ns) => |ns| == |keys| && forall i :: 0 <= i < |keys| ==> DecodeTail(After(keys[i], plen)) == Some(ns[i])
    decreases |keys|
  {
    hide DecodeTail, After;
    if keys != [] {
      KeysDecodeExactly(keys[..|keys| - 1], plen);
    }
  }

  // ---- Exactness ----

  ghost predicate IsNeighbour(st: State, dir: Direction, graph: Text, node: Text, floor: Weight, n: Neighbour) {
    IsEdge(st, EdgeAt(dir, graph, node, n)) && n.weight >= floor
  }

  /** The neighbours of a node over edges at or above the floor: each edge once, ascending by
      weight. */
  ghost predicate IsNeighbours(st: State, dir: Direction, graph: Text, node: Text, floor: Weight, ns: seq<Neighbour>) {
    && (forall i, j :: 0 <= i < j < |ns| ==> ns[i].weight <= ns[j].weight && ns[i] != ns[j])
    && (forall n :: n in ns <==> IsNeighbour(st, dir, graph, node, floor, n))
  }

  function KeyOfNeighbour(prefix: Text, n: Neighbour): Text {
    prefix + Tail(n.weight, n.node, n.etype)
  }

  lemma AdjacencyKeyBytes(tenant: Text, dir: Direction, graph: Text, node: Text, n: Neighbour)
    requires Short(graph) && Short(node) && FitsNeighbour(n)
    ensures Fits(AdjacencyKey(dir, EdgeAt(dir, graph, node, n)))
    ensures Encode(tenant, AdjacencyKey(dir, EdgeAt(dir, graph, node, n)))
         == KeyOfNeighbour(AdjacencyPrefix(tenant, dir, graph, node), n)
  {
    hide Lp, Tail;
    RegroupTwo(Lp(tenant), AdjacencyTag(dir), Lp(graph), Lp(node), Tail(n.weight, n.node, n.etype));
  }

  lemma RegroupTwo(a: Text, tag: Byte, b: Text, c: Text, d: Text)
    ensures a + ([tag] + (b + (c + d))) == (a + ([tag] + (b + c))) + d
  {
  }

  /** The other end of an edge seen from one side. */
  function Seen(dir: Direction, e: Weighted): Neighbour {
    Neighbour(if dir == Out then e.id.dst else e.id.src, e.weight, e.id.etype)
  }

  /** A key of the store under a node's prefix is an edge at that node. */
  lemma KeyUnderPrefix(m: Flat, tenant: Text, st: State, dir: Direction, graph: Text, node: Text, b: Text) returns (n: Neighbour)
    requires Short(tenant) && Short(graph) && Short(node) && Holds(m, tenant, st) && Consistent(st)
    requires b in m && AdjacencyPrefix(tenant, dir, graph, node) <= b
    ensures FitsNeighbour(n) && b == KeyOfNeighbour(AdjacencyPrefix(tenant, dir, graph, node), n)
    ensures IsEdge(st, EdgeAt(dir, graph, node, n))
  {
    hide Lp, Encode, Tail, WellKeyed;
    var k := KeyUnderTag(m, tenant, st, AdjacencyTag(dir), Lp(graph) + Lp(node), b);
    assert Lookup(st, k).Some?;
    n := Seen(dir, k.edge);
    var e := k.edge;
    var rest := b[|AdjacencyPrefix(tenant, dir, graph, node)|..];
    assert b == AdjacencyPrefix(tenant, dir, graph, node) + rest;
    SameNode(tenant, dir, graph, node, e, rest);
    AdjacencyKeyBytes(tenant, dir, graph, node, n);
  }

  lemma KeyUnderTag(m: Flat, tenant: Text, st: State, tag: Byte, more: Text, b: Text) returns (k: Key)
    requires Holds(m, tenant, st) && IsEvidenceTag(tag) && b in m && Lp(tenant) + ([tag] + more) <= b
    ensures Fits(k) && Tag(k) == tag && Encode(tenant, k) == b && Lookup(st, k).Some?
  {
    hide Encode, Lp, Tag, Fits, Lookup;
    Associate(Lp(tenant), [tag], more);
    assert TagPrefix(tenant, tag) <= b;
    assert IsKey(tenant, tag, b);
    k :| Fits(k) && Tag(k) == tag && Encode(tenant, k) == b;
  }

  lemma SameNode(tenant: Text, dir: Direction, graph: Text, node: Text, e: Weighted, rest: Text)
    requires Short(graph) && Short(node) && ShortId(e.id)
    requires Encode(tenant, AdjacencyKey(dir, e)) == AdjacencyPrefix(tenant, dir, graph, node) + rest
    ensures e == EdgeAt(dir, graph, node, Seen(dir, e))
  {
    hide Lp, Tail;
    var g, n := e.id.graph, if dir == Out then e.id.src else e.id.dst;
    var x := Seen(dir, e);
    var tail := Tail(x.weight, x.node, x.etype);
    RegroupTwo(Lp(tenant), AdjacencyTag(dir), Lp(graph), Lp(node), rest);
    FixedPrefix(Lp(tenant), [AdjacencyTag(dir)] + (Lp(g) + (Lp(n) + tail)),
                Lp(tenant), [AdjacencyTag(dir)] + (Lp(graph) + (Lp(node) + rest)));
    FixedPrefix([AdjacencyTag(dir)], Lp(g) + (Lp(n) + tail), [AdjacencyTag(dir)], Lp(graph) + (Lp(node) + rest));
    LpPrefixFree(g, Lp(n) + tail, graph, Lp(node) + rest);
    LpPrefixFree(n, tail, node, rest);
  }

  /** Under one prefix, keys sort by weight first. */
  lemma KeyOrder(prefix: Text, a: Neighbour, b: Neighbour)
    requires Less(KeyOfNeighbour(prefix, a), KeyOfNeighbour(prefix, b))
    ensures a.weight <= b.weight && a != b
  {
    hide Lp, WeightObe;
    LessAfterPrefix(prefix, Tail(a.weight, a.node, a.etype), Tail(b.weight, b.node, b.etype));
    LessIrreflexive(Tail(a.weight, a.node, a.etype));
    if a.weight != b.weight {
      ObeOrder(a.weight, b.weight);
      LessByHeads(WeightObe(a.weight), Lp(a.node) + Lp(a.etype), WeightObe(b.weight), Lp(b.node) + Lp(b.etype));
    }
  }

  /** The scan starts at the floor: a key is past the start exactly if its weight is. */
  lemma KeyPastFloor(prefix: Text, n: Neighbour, floor: Weight)
    ensures AtMost(prefix + WeightObe(floor), KeyOfNeighbour(prefix, n)) <==> n.weight >= floor
  {
    hide Lp, WeightObe;
    var start, key := prefix + WeightObe(floor), KeyOfNeighbour(prefix, n);
    var tail := Tail(n.weight, n.node, n.etype);
    LessAfterPrefix(prefix, WeightObe(floor), tail);
    assert start == key ==> |WeightObe(floor)| == |tail| ;
    if n.weight == floor {
      PrefixAtMost(WeightObe(floor), tail);
      assert AtMost(start, key);
    } else {
      ObeOrder(floor, n.weight);
      LessByHeads(WeightObe(floor), [], WeightObe(n.weight), Lp(n.node) + Lp(n.etype));
      assert WeightObe(floor) + [] == WeightObe(floor);
      LpLength(n.node);
    }
  }

  /** A scan of the flat map yields exactly the edges at the node, at or above the floor. */
  lemma ScannedKeys(m: Flat, tenant: Text, st: State, dir: Direction, graph: Text, node: Text, floor: Weight, n: Neighbour)
    requires Short(tenant) && Short(graph) && Short(node) && FitsNeighbour(n) && Holds(m, tenant, st) && Consistent(st)
    ensures var prefix := AdjacencyPrefix(tenant, dir, graph, node);
            var b := KeyOfNeighbour(prefix, n);
            b in m && InRange(b, prefix + WeightObe(floor), PrefixUpperBound(prefix))
            <==> IsNeighbour(st, dir, graph, node, floor, n)
  {
    hide WeightObe, Encode, Tail, AdjacencyPrefix, PrefixUpperBound, WellKeyed, Fits, AtMost;
    var prefix := AdjacencyPrefix(tenant, dir, graph, node);
    var e := EdgeAt(dir, graph, node, n);
    AdjacencyKeyBytes(tenant, dir, graph, node, n);
    assert Fits(AdjacencyKey(dir, e));
    InScanRange(prefix, floor, KeyOfNeighbour(prefix, n));
    KeyPastFloor(prefix, n, floor);
  }

  /** Edges of a stored state have names the keys can hold. */
  lemma StoredFits(m: Flat, tenant: Text, st: State, dir: Direction, graph: Text, node: Text, n: Neighbour)
    requires Holds(m, tenant, st) && Consistent(st) && IsEdge(st, EdgeAt(dir, graph, node, n))
    ensures FitsNeighbour(n) && Short(graph) && Short(node)
  {
    hide WellKeyed, Encode;
    assert Lookup(st, EdgeKey(EdgeAt(dir, graph, node, n).id)).Some?;
    assert Fits(EdgeKey(EdgeAt(dir, graph, node, n).id));
  }

  /** The decoded keys of a scan: no error, and as many neighbours as keys. */
  lemma {:induction false} DecodeScan(keys: seq<Text>, prefix: Text, ns: seq<Neighbour>)
    requires |keys| == |ns|
    requires forall i :: 0 <= i < |ns| ==> FitsNeighbour(ns[i]) && keys[i] == KeyOfNeighbour(prefix, ns[i])
    ensures DecodeKeys(keys, |prefix|) == Some(ns)
    decreases |keys|
  {
    hide Tail, DecodeTail;
    if keys != [] {
      var n := |keys| - 1;
      DecodeScan(keys[..n], prefix, ns[..n]);
      DecodeEncoded(ns[n].weight, ns[n].node, ns[n].etype);
      assert After(keys[n], |prefix|) == Tail(ns[n].weight, ns[n].node, ns[n].etype);
      assert ns == ns[..n] + [ns[n]];
    }
  }

  /** The neighbours behind the keys of a scan. */
  lemma {:induction false} NeighboursOfKeys(m: Flat, tenant: Text, st: State, dir: Direction, graph: Text, node: Text, keys: seq<Text>)
    returns (ns: seq<Neighbour>)
    requires Short(tenant) && Short(graph) && Short(node) && Holds(m, tenant, st) && Consistent(st)
    requires forall i :: 0 <= i < |keys| ==> keys[i] in m && AdjacencyPrefix(tenant, dir, graph, node) <= keys[i]
    ensures |ns| == |keys|
    ensures forall i :: 0 <= i < |ns| ==> FitsNeighbour(ns[i]) && IsEdge(st, EdgeAt(dir, graph, node, ns[i]))
    ensures forall i :: 0 <= i < |ns| ==> keys[i] == KeyOfNeighbour(AdjacencyPrefix(tenant, dir, graph, node), ns[i])
    decreases |keys|
  {
    hide KeyOfNeighbour, AdjacencyPrefix, Holds, Consistent, IsEdge;
    ns := [];
    if keys != [] {
      var n := |keys| - 1;
      var before := NeighboursOfKeys(m, tenant, st, dir, graph, node, keys[..n]);
      var x := KeyUnderPrefix(m, tenant, st, dir, graph, node, keys[n]);
      ns := before + [x];
    }
  }

  /** On any flat map that holds a consistent graph, the scan from the prefix and the encoded
      floor decodes without error to the neighbours of the node over edges at or above the
      floor, each edge once, ascending by weight. */
  lemma ScanIsExact(m: Flat, tenant: Text, st: State, dir: Direction, graph: Text, node: Text, floor: Weight)
    requires Short(tenant) && Short(graph) && Short(node) && Holds(m, tenant, st) && Consistent(st)
    ensures var prefix := AdjacencyPrefix(tenant, dir, graph, node);
            var r := DecodeKeys(AdjacencyScan(m, prefix, floor), |prefix|);
            r.Some? && IsNeighbours(st, dir, graph, node, floor, r.value)
  {
    hide KeyOfNeighbour, AdjacencyPrefix, Holds, Consistent, IsEdge, InRange, PrefixUpperBound, WeightObe, DecodeKeys, Less, ScanKeys;
    var prefix := AdjacencyPrefix(tenant, dir, graph, node);
    var keys := AdjacencyScan(m, prefix, floor);
    forall i | 0 <= i < |keys|
      ensures keys[i] in m && prefix <= keys[i]
    {
      assert keys[i] in keys;
      InScanRange(prefix, floor, keys[i]);
    }
    var ns := NeighboursOfKeys(m, tenant, st, dir, graph, node, keys);
    DecodeScan(keys, prefix, ns);
    forall i, j | 0 <= i < j < |ns|
      ensures ns[i].weight <= ns[j].weight && ns[i] != ns[j]
    {
      KeyOrder(prefix, ns[i], ns[j]);
    }
    forall n
      ensures n in ns <==> IsNeighbour(st, dir, graph, node, floor, n)
    {
      var b := KeyOfNeighbour(prefix, n);
      if n in ns {
        ScannedKeys(m, tenant, st, dir, graph, node, floor, n);
        assert b in keys;
      }
      if IsNeighbour(st, dir, graph, node, floor, n) {
        StoredFits(m, tenant, st, dir, graph, node, n);
        ScannedKeys(m, tenant, st, dir, graph, node, floor, n);
        var i :| 0 <= i < |keys| && keys[i] == b;
        SameKeySameNeighbour(prefix, ns[i], n);
      }
    }
  }

  lemma SameKeySameNeighbour(prefix: Text, a: Neighbour, b: Neighbour)
    requires FitsNeighbour(a) && FitsNeighbour(b) && KeyOfNeighbour(prefix, a) == KeyOfNeighbour(prefix, b)
    ensures a == b
  {
    hide Tail;
    FixedPrefix(prefix, Tail(a.weight, a.node, a.etype), prefix, Tail(b.weight, b.node, b.etype));
    TailInjective(a.weight, a.node, a.etype, b.weight, b.node, b.etype);
  }

  method Neighbours(m: Flat, tenant: Text, dir: Direction, graph: Text, node: Text, floor: Weight, ghost st: State)
    returns (r: Option<seq<Neighbour>>)
    requires Short(tenant) && Short(graph) && Short(node) && Holds(m, tenant, st) && Consistent(st)
    ensures r.Some? && IsNeighbours(st, dir, graph, node, floor, r.value)
  {
    hide Holds, Consistent, IsNeighbours, AdjacencyScan;
    r := ScanAdjacency(m, AdjacencyPrefix(tenant, dir, graph, node), floor);
    ScanIsExact(m, tenant, st, dir, graph, node, floor);
  }
}
