/** The widest path between two nodes: a maximin search with a max-heap that keeps its stale
    entries. */
module WidestPath {
  import opened Adjacency
  import opened Bytes
  import opened Keys
  import opened Links
  import opened Outcomes
  import opened Store

  datatype Widest = Widest(connected: bool, bottleneck: Option<Weight>)

  /** The best bottleneck known for each node reached. */
  type Best = map<Text, Weight>

  type Heap = multiset<(Weight, Text)>

  /** `b` is the bottleneck of some path from `from` to `v`. */
  ghost predicate Attained(links: set<Link>, from: Text, v: Text, b: Weight) {
    exists p :: IsPath(links, from, p, v) && Bottleneck(p) == b
  }

  // ---- The invariant ----

  /** `done` are the nodes expanded so far: no heap entry is above their bottlenecks, and
      every other node reached waits in the heap with its best bottleneck. */
  ghost predicate Searching(links: set<Link>, from: Text, best: Best, heap: Heap, done: set<Text>) {
    && from in best && best[from] == MaxI64
    && (forall v :: v in best ==> best[v] > MinI64 && Attained(links, from, v, best[v]))
    && done <= best.Keys
    && (forall e :: e in heap ==> heap[e] == 1 && e.1 in best && e.0 <= best[e.1])
    && (forall v :: v in best && v !in done ==> (best[v], v) in heap)
    && (forall e, u :: e in heap && u in done ==> e.0 <= best[u] && (best[u], u) !in heap)
  }

  /** The link has been followed from its expanded source. */
  ghost predicate Followed(best: Best, l: Link) {
    && l.src in best
    && (Min(best[l.src], l.weight) > MinI64 ==> l.dst in best && best[l.dst] >= Min(best[l.src], l.weight))
  }

  ghost predicate Settled(links: set<Link>, best: Best, done: set<Text>) {
    forall l :: l in links && l.src in done ==> Followed(best, l)
  }

  /** Bottlenecks only grow, and not those of expanded nodes. */
  ghost predicate Grows(best: Best, after: Best, done: set<Text>) {
    && (forall v :: v in best ==> v in after && best[v] <= after[v])
    && (forall v :: v in best && v in done ==> after[v] == best[v])
  }

  // ---- One relaxation ----

  lemma RelaxKeeps(links: set<Link>, from: Text, best: Best, heap: Heap, done: set<Text>, u: Text, v: Text, w: Weight)
    requires Searching(links, from, best, heap, done) && u in done && Link(u, w, v) in links
    requires forall x :: x in done ==> best[u] <= best[x]
    requires Min(best[u], w) > if v in best then best[v] else MinI64
    ensures var nb := Min(best[u], w);
            && Searching(links, from, best[v := nb], heap + multiset{(nb, v)}, done)
            && Grows(best, best[v := nb], done)
  {
    hide IsPath, Bottleneck, Attained;
    var nb := Min(best[u], w);
    assert v !in done;
    assert (nb, v) !in heap;
    AttainedOver(links, from, u, best[u], v, w);
    PushOnce(heap, (nb, v));
    ReachedKept(links, from, best, v, nb, best[v := nb]);
    HeapKept(best, heap, done, v, nb);
  }

  lemma AttainedOver(links: set<Link>, from: Text, u: Text, b: Weight, v: Text, w: Weight)
    requires Attained(links, from, u, b) && Link(u, w, v) in links
    ensures Attained(links, from, v, Min(b, w))
  {
    hide IsPath, Bottleneck;
    var p :| IsPath(links, from, p, u) && Bottleneck(p) == b;
    PathSnoc(links, from, p, Link(u, w, v));
  }

  lemma ReachedKept(links: set<Link>, from: Text, best: Best, v: Text, nb: Weight, after: Best)
    requires after == best[v := nb]
    requires forall x :: x in best ==> best[x] > MinI64 && Attained(links, from, x, best[x])
    requires Attained(links, from, v, nb) && nb > MinI64
    ensures forall x :: x in after ==> after[x] > MinI64 && Attained(links, from, x, after[x])
  {
    hide Attained;
  }

  lemma HeapKept(best: Best, heap: Heap, done: set<Text>, v: Text, nb: Weight)
    requires forall e :: e in heap ==> e.1 in best && e.0 <= best[e.1]
    requires forall x :: x in best && x !in done ==> (best[x], x) in heap
    requires v in best ==> best[v] < nb
    ensures forall e :: e in heap ==> e.1 in best[v := nb] && e.0 <= best[v := nb][e.1]
    ensures forall x :: x in best && x != v && x !in done ==> (best[x], x) in heap
  {
  }

  lemma PushOnce(heap: Heap, e: (Weight, Text))
    requires e !in heap
    ensures forall x :: x in heap + multiset{e} <==> x in heap || x == e
    ensures (forall x :: x in heap ==> heap[x] == 1) ==> forall x :: x in heap + multiset{e} ==> (heap + multiset{e})[x] == 1
  {
  }

  lemma SettledGrows(links: set<Link>, best: Best, after: Best, done: set<Text>, among: set<Text>)
    requires Settled(links, best, among) && Grows(best, after, done) && among <= done <= best.Keys
    ensures Settled(links, after, among)
  {
    forall l | l in links && l.src in among
      ensures Followed(after, l)
    {
      assert Followed(best, l);
    }
  }

  // ---- What the heap order gives ----

  /** A wider path than the top of the heap runs over expanded nodes only. */
  lemma {:induction false} WiderIsDone(links: set<Link>, from: Text, best: Best, heap: Heap, done: set<Text>, top: Weight,
                                       p: seq<Link>, v: Text)
    requires Searching(links, from, best, heap, done) && Settled(links, best, done)
    requires forall e :: e in heap ==> e.0 <= top
    requires IsPath(links, from, p, v) && Bottleneck(p) > top
    ensures v in done && best[v] >= Bottleneck(p)
    decreases |p|
  {
    hide Attained;
    if p != [] {
      var l := p[|p| - 1];
      WiderIsDone(links, from, best, heap, done, top, p[..|p| - 1], l.src);
      assert Followed(best, l);
    }
  }

  // ---- The heap ----

  predicate PopsBefore(a: (Weight, Text), b: (Weight, Text)) {
    a.0 > b.0 || (a.0 == b.0 && AtMost(b.1, a.1))
  }

  lemma AboveTotal(a: (Weight, Text), b: (Weight, Text))
    ensures PopsBefore(a, b) || PopsBefore(b, a)
    ensures PopsBefore(a, a)
  {
    LessTrichotomy(a.1, b.1);
  }

  lemma AboveTransitive(a: (Weight, Text), t: (Weight, Text), e: (Weight, Text))
    requires PopsBefore(a, t) && PopsBefore(t, e)
    ensures PopsBefore(a, e)
  {
    if Less(e.1, t.1) && Less(t.1, a.1) {
      LessTransitive(e.1, t.1, a.1);
    }
  }

  lemma {:induction false} HasTop(entries: set<(Weight, Text)>)
    requires entries != {}
    ensures exists t :: t in entries && forall e :: e in entries ==> PopsBefore(t, e)
    decreases entries
  {
    hide PopsBefore;
    var a :| a in entries;
    AboveTotal(a, a);
    if b :| b in entries && !PopsBefore(a, b) {
      var higher := set e | e in entries && !PopsBefore(a, e);
      assert b in higher && a !in higher;
      HasTop(higher);
      var t :| t in higher && forall e :: e in higher ==> PopsBefore(t, e);
      forall e | e in entries
        ensures PopsBefore(t, e)
      {
        AboveTotal(a, t);
        if e !in higher {
          AboveTransitive(t, a, e);
        }
      }
    }
  }

  /** Removes the greatest entry: greatest weight first, ties by the greater node. */
  method Pop(heap: Heap) returns (top: (Weight, Text), rest: Heap)
    requires heap != multiset{}
    ensures top in heap && (forall e :: e in heap ==> PopsBefore(top, e))
    ensures forall e :: e in heap ==> e.0 <= top.0 && (e.0 == top.0 ==> AtMost(e.1, top.1))
    ensures rest == heap - multiset{top}
  {
    hide AtMost;
    ghost var entries := set e | e in heap;
    var some :| some in heap;
    assert some in entries;
    HasTop(entries);
    ghost var t :| t in entries && forall e :: e in entries ==> PopsBefore(t, e);
    assert t in heap && forall e :: e in heap ==> e in entries && PopsBefore(t, e);
    top :| top in heap && forall e :: e in heap ==> PopsBefore(top, e);
    rest := heap - multiset{top};
  }

  // ---- The search ----

  /** An entry that is not stale names a node that is not expanded yet. */
  lemma PopKeeps(links: set<Link>, from: Text, best: Best, heap: Heap, done: set<Text>, bw: Weight, u: Text)
    requires Searching(links, from, best, heap, done) && (bw, u) in heap
    requires forall e :: e in heap ==> e.0 <= bw
    ensures u in best
    ensures best[u] != bw ==> Searching(links, from, best, heap - multiset{(bw, u)}, done)
    ensures best[u] == bw ==>
      u !in done && Searching(links, from, best, heap - multiset{(bw, u)}, done + {u})
    ensures forall x :: x in done ==> bw <= best[x]
  {
    hide Attained;
    assert u in best;
  }

  /** Follows the edges of the node just expanded. */
  method Relax(best: Best, heap: Heap, bw: Weight, u: Text, ns: seq<Neighbour>,
               ghost links: set<Link>, ghost from: Text, ghost done: set<Text>) returns (best': Best, heap': Heap)
    requires u !in done && Searching(links, from, best, heap, done + {u}) && best[u] == bw
    requires forall x :: x in done ==> bw <= best[x]
    requires Settled(links, best, done) && IsExpansion(links, u, MinI64, ns)
    ensures Searching(links, from, best', heap', done + {u})
    ensures Settled(links, best', done + {u})
  {
    hide Searching, Settled, Followed, IsExpansion, Grows;
    ghost var now := done + {u};
    DoneIsKnown(links, from, best, heap, now);
    best', heap' := best, heap;
    GrowsSelf(best, now);
    for i := 0 to |ns|
      invariant Searching(links, from, best', heap', now) && Grows(best, best', now)
      invariant forall j :: 0 <= j < i ==> Followed(best', Link(u, ns[j].weight, ns[j].node))
    {
      var v, w := ns[i].node, ns[i].weight;
      ghost var before := best';
      ExpansionLink(links, u, ns, i);
      StillBest(best, best', now, u, bw);
      var nb := Min(bw, w);
      if nb > if v in best' then best'[v] else MinI64 {
        RelaxKeeps(links, from, best', heap', now, u, v, w);
        GrowsOn(best, best', best'[v := nb], now);
        best', heap' := best'[v := nb], heap' + multiset{(nb, v)};
        forall j | 0 <= j < i
          ensures Followed(best', Link(u, ns[j].weight, ns[j].node))
        {
          FollowedGrows(before, best', now, Link(u, ns[j].weight, ns[j].node));
        }
      }
      StillBest(best, best', now, u, bw);
      IsFollowed(best', Link(u, w, v));
    }
    AllFollowed(links, best, best', done, u, ns);
  }

  lemma DoneIsKnown(links: set<Link>, from: Text, best: Best, heap: Heap, done: set<Text>)
    requires Searching(links, from, best, heap, done)
    ensures done <= best.Keys
  {
  }

  lemma GrowsSelf(best: Best, done: set<Text>)
    ensures Grows(best, best, done)
  {
  }

  lemma GrowsOn(best: Best, next: Best, after: Best, done: set<Text>)
    requires Grows(best, next, done) && Grows(next, after, done)
    ensures Grows(best, after, done)
  {
  }

  lemma ExpansionLink(links: set<Link>, u: Text, ns: seq<Neighbour>, i: nat)
    requires IsExpansion(links, u, MinI64, ns) && i < |ns|
    ensures Link(u, ns[i].weight, ns[i].node) in links
  {
    assert ns[i] in ns;
  }

  lemma StillBest(best: Best, after: Best, done: set<Text>, u: Text, bw: Weight)
    requires Grows(best, after, done) && u in done && done <= best.Keys && best[u] == bw && (forall x :: x in done ==> bw <= best[x])
    ensures u in after && after[u] == bw && (forall x :: x in done ==> x in after && bw <= after[x])
  {
  }

  lemma FollowedGrows(best: Best, after: Best, done: set<Text>, l: Link)
    requires Followed(best, l) && Grows(best, after, done) && l.src in done
    ensures Followed(after, l)
  {
  }

  lemma IsFollowed(best: Best, l: Link)
    requires l.src in best && (l.dst in best ==> best[l.dst] >= Min(best[l.src], l.weight))
    requires l.dst in best || Min(best[l.src], l.weight) == MinI64
    ensures Followed(best, l)
  {
  }

  lemma AllFollowed(links: set<Link>, best: Best, after: Best, done: set<Text>, u: Text, ns: seq<Neighbour>)
    requires Settled(links, best, done) && Grows(best, after, done + {u}) && done + {u} <= best.Keys
    requires IsExpansion(links, u, MinI64, ns)
    requires forall j :: 0 <= j < |ns| ==> Followed(after, Link(u, ns[j].weight, ns[j].node))
    ensures Settled(links, after, done + {u})
  {
    hide Followed, Grows;
    SettledGrows(links, best, after, done + {u}, done);
    forall l | l in links && l.src in done + {u}
      ensures Followed(after, l)
    {
      if l.src == u {
        assert Leads(ns, l);
      }
    }
  }

  /** A node reached is the start or a link leads to it. */
  lemma AttainedNode(links: set<Link>, from: Text, v: Text, b: Weight)
    requires Attained(links, from, v, b)
    ensures v in NodesOf(links, {from})
    ensures v == from || exists l :: l in links && l.dst == v
  {
    var p :| IsPath(links, from, p, v) && Bottleneck(p) == b;
  }

  lemma ReachedNodes(links: set<Link>, from: Text, best: Best, heap: Heap, done: set<Text>)
    requires Searching(links, from, best, heap, done)
    ensures done <= NodesOf(links, {from})
  {
    hide Attained;
    forall v | v in done
      ensures v in NodesOf(links, {from})
    {
      AttainedNode(links, from, v, best[v]);
    }
  }

  lemma ReachedFits(m: Flat, tenant: Text, st: State, graph: Text, directed: bool, from: Text, v: Text, b: Weight)
    requires Holding(m, tenant, st) && Short(from) && Attained(LinksOf(st, graph, directed), from, v, b)
    ensures Short(v)
  {
    hide Holding, LinksOf, Attained;
    AttainedNode(LinksOf(st, graph, directed), from, v, b);
    if v != from {
      var l :| l in LinksOf(st, graph, directed) && l.dst == v;
      LinkFits(m, tenant, st, graph, directed, l);
    }
  }

  /** The widest path has this bottleneck. */
  ghost predicate IsWidest(links: set<Link>, from: Text, to: Text, b: Weight) {
    Attained(links, from, to, b) && forall p :: IsPath(links, from, p, to) ==> Bottleneck(p) <= b
  }

  /** Some path avoids the smallest weight of all, which the search takes for no path. */
  ghost predicate HasUsablePath(links: set<Link>, from: Text, to: Text) {
    exists p :: IsPath(links, from, p, to) && Bottleneck(p) > MinI64
  }

  lemma FoundIsWidest(links: set<Link>, from: Text, best: Best, heap: Heap, done: set<Text>, to: Text)
    requires Searching(links, from, best, heap, done) && Settled(links, best, done) && to in best && to !in done
    requires forall e :: e in heap ==> e.0 <= best[to]
    ensures IsWidest(links, from, to, best[to]) && HasUsablePath(links, from, to)
  {
    hide Settled, IsPath, Bottleneck;
    assert Attained(links, from, to, best[to]) && best[to] > MinI64;
    forall p | IsPath(links, from, p, to)
      ensures Bottleneck(p) <= best[to]
    {
      if Bottleneck(p) > best[to] {
        WiderIsDone(links, from, best, heap, done, best[to], p, to);
      }
    }
  }

  lemma ExhaustedHasNone(links: set<Link>, from: Text, best: Best, done: set<Text>, to: Text)
    requires Searching(links, from, best, multiset{}, done) && Settled(links, best, done) && to !in done
    ensures !HasUsablePath(links, from, to)
  {
    hide Settled, Searching, IsPath, Bottleneck;
    if p :| IsPath(links, from, p, to) && Bottleneck(p) > MinI64 {
      WiderIsDone(links, from, best, multiset{}, done, MinI64, p, to);
    }
  }

  ghost predicate NoRepeats(s: seq<Text>) {
    forall i, j :: 0 <= i < j < |s| ==> s[i] != s[j]
  }

  /** Finds the widest path; `expanded` lists the nodes it scans, in order. */
  method Search(m: Flat, tenant: Text, graph: Text, from: Text, to: Text, directed: bool, ghost st: State)
    returns (r: Widest, ghost expanded: seq<Text>)
    requires Holding(m, tenant, st) && Short(graph) && Short(from)
    ensures from == to ==> r == Widest(true, None)
    ensures from != to ==> r.connected == HasUsablePath(LinksOf(st, graph, directed), from, to)
    ensures from != to && r.connected ==> r.bottleneck.Some? && IsWidest(LinksOf(st, graph, directed), from, to, r.bottleneck.value)
    ensures !r.connected ==> r.bottleneck == None
    ensures NoRepeats(expanded)
  {
    hide Searching, Settled, IsExpansion, LinksOf, Holding, IsWidest, HasUsablePath, Attained, NodesOf, AtMost;
    ghost var links := LinksOf(st, graph, directed);
    expanded := [];
    if from == to {
      return Widest(true, None), expanded;
    }
    var best: Best := map[from := MaxI64];
    var heap: Heap := multiset{(MaxI64, from)};
    ghost var done: set<Text> := {};
    StartKeeps(links, from);
    while heap != multiset{}
      invariant Searching(links, from, best, heap, done) && Settled(links, best, done)
      invariant to !in done
      invariant NoRepeats(expanded) && (forall x :: x in expanded <==> x in done)
      decreases NodesOf(links, {from}) - done, |heap|
    {
      ghost var before := heap;
      var top, rest := Pop(heap);
      PopKeeps(links, from, best, heap, done, top.0, top.1);
      heap := rest;
      var bw, u := top.0, top.1;
      if best[u] != bw {
        continue;
      }
      if u == to {
        BestReached(links, from, best, before, done, u);
        FoundIsWidest(links, from, best, before, done, to);
        return Widest(true, Some(bw)), expanded;
      }
      BestReached(links, from, best, heap, done + {u}, u);
      ReachedFits(m, tenant, st, graph, directed, from, u, bw);
      AttainedNode(links, from, u, bw);
      var ns := Expand(m, tenant, graph, u, MinI64, directed, st);
      best, heap := Relax(best, heap, bw, u, ns, links, from, done);
      ReachedNodes(links, from, best, heap, done + {u});
      expanded, done := expanded + [u], done + {u};
    }
    ExhaustedHasNone(links, from, best, done, to);
    r := Widest(false, None);
  }

  lemma BestReached(links: set<Link>, from: Text, best: Best, heap: Heap, done: set<Text>, u: Text)
    requires Searching(links, from, best, heap, done) && u in best
    ensures Attained(links, from, u, best[u])
  {
  }

  lemma StartKeeps(links: set<Link>, from: Text)
    ensures Searching(links, from, map[from := MaxI64], multiset{(MaxI64, from)}, {})
    ensures Settled(links, map[from := MaxI64], {})
  {
    var p: seq<Link> := [];
    assert IsPath(links, from, p, from) && Bottleneck(p) == MaxI64;
  }

  /** Without an edge of the smallest weight, connected means that a path exists. */
  lemma {:induction false} UsualPath(links: set<Link>, from: Text, p: seq<Link>, to: Text)
    requires IsPath(links, from, p, to) && forall l :: l in links ==> l.weight > MinI64
    ensures Bottleneck(p) > MinI64
    decreases |p|
  {
    if p != [] {
      UsualPath(links, from, p[..|p| - 1], p[|p| - 1].src);
    }
  }

  /** With one, it need not: here the only path is not usable. */
  lemma SmallestWeightHides(a: Text, b: Text, links: set<Link>)
    requires a != b && links == {Link(a, MinI64, b)}
    ensures (exists p :: IsPath(links, a, p, b)) && !HasUsablePath(links, a, b)
  {
    var l := Link(a, MinI64, b);
    assert IsPath(links, a, [], a);
    PathSnoc(links, a, [], l);
    assert IsPath(links, a, [] + [l], b);
    forall p | IsPath(links, a, p, b)
      ensures Bottleneck(p) == MinI64
    {
      assert p[|p| - 1] == l;
    }
  }
}
