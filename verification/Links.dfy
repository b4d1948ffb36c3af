/** One graph as a traversal sees it: links between nodes, and paths along them. */
module Links {
  import opened Adjacency
  import opened Bytes
  import opened Graph
  import opened Keys
  import opened Store

  datatype Link = Link(src: Text, weight: Weight, dst: Text)

  /** The edges of a graph as links; when undirected, each in both directions. */
  ghost function LinksOf(st: State, graph: Text, directed: bool): set<Link> {
    (set id | id in st.edges && id.graph == graph :: Link(id.src, st.edges[id], id.dst))
    + if directed then {} else set id | id in st.edges && id.graph == graph :: Link(id.dst, st.edges[id], id.src)
  }

  /** A node and everything a link could lead to. */
  ghost function NodesOf(links: set<Link>, seeds: set<Text>): set<Text> {
    seeds + set l | l in links :: l.dst
  }

  /** The links out of a node at or above the floor. */
  ghost predicate IsExpansion(links: set<Link>, node: Text, floor: Weight, ns: seq<Neighbour>) {
    && (forall n :: n in ns ==> Link(node, n.weight, n.node) in links && n.weight >= floor)
    && (forall l :: l in links && l.src == node && l.weight >= floor ==> Leads(ns, l))
  }

  ghost predicate Leads(ns: seq<Neighbour>, l: Link) {
    exists n :: n in ns && n.node == l.dst && n.weight == l.weight
  }

  ghost predicate Holding(m: Flat, tenant: Text, st: State) {
    Short(tenant) && Holds(m, tenant, st) && Consistent(st)
  }

  lemma OutLink(st: State, graph: Text, directed: bool, node: Text, n: Neighbour)
    requires IsEdge(st, EdgeAt(Out, graph, node, n))
    ensures Link(node, n.weight, n.node) in LinksOf(st, graph, directed)
  {
  }

  lemma InLink(st: State, graph: Text, node: Text, n: Neighbour)
    requires IsEdge(st, EdgeAt(In, graph, node, n))
    ensures Link(node, n.weight, n.node) in LinksOf(st, graph, false)
  {
  }

  /** The neighbour behind a link. */
  lemma LinkedNeighbour(st: State, graph: Text, directed: bool, l: Link) returns (dir: Direction, n: Neighbour)
    requires l in LinksOf(st, graph, directed)
    ensures IsEdge(st, EdgeAt(dir, graph, l.src, n)) && n.node == l.dst && n.weight == l.weight && (directed ==> dir == Out)
  {
    if id :| id in st.edges && id.graph == graph && l == Link(id.src, st.edges[id], id.dst) {
      dir, n := Out, Neighbour(l.dst, l.weight, id.etype);
      assert EdgeAt(dir, graph, l.src, n).id == id;
    } else {
      var id :| id in st.edges && id.graph == graph && l == Link(id.dst, st.edges[id], id.src);
      dir, n := In, Neighbour(l.dst, l.weight, id.etype);
      assert EdgeAt(dir, graph, l.src, n).id == id;
    }
  }

  lemma ScansExpand(st: State, graph: Text, directed: bool, node: Text, floor: Weight, outs: seq<Neighbour>, ins: seq<Neighbour>)
    requires IsNeighbours(st, Out, graph, node, floor, outs)
    requires if directed then ins == [] else IsNeighbours(st, In, graph, node, floor, ins)
    ensures IsExpansion(LinksOf(st, graph, directed), node, floor, outs + ins)
  {
    hide LinksOf, IsEdge;
    var links := LinksOf(st, graph, directed);
    forall n | n in outs + ins
      ensures Link(node, n.weight, n.node) in links && n.weight >= floor
    {
      if n in outs {
        OutLink(st, graph, directed, node, n);
      } else {
        InLink(st, graph, node, n);
      }
    }
    forall l | l in links && l.src == node && l.weight >= floor
      ensures Leads(outs + ins, l)
    {
      var dir, n := LinkedNeighbour(st, graph, directed, l);
      assert IsNeighbour(st, dir, graph, node, floor, n);
      assert if dir == Out then n in outs else n in ins;
      assert n in outs + ins;
    }
  }

  /** The neighbours of a node: its out-edges, then its in-edges when undirected. The scans
      do not fail on a consistent graph. */
  method Expand(m: Flat, tenant: Text, graph: Text, node: Text, floor: Weight, directed: bool, ghost st: State)
    returns (ns: seq<Neighbour>)
    requires Holding(m, tenant, st) && Short(graph) && Short(node)
    ensures IsExpansion(LinksOf(st, graph, directed), node, floor, ns)
  {
    hide Holds, Consistent, IsNeighbours, IsExpansion, LinksOf;
    var outs := Neighbours(m, tenant, Out, graph, node, floor, st);
    ns := outs.value;
    ghost var ins := [];
    if !directed {
      var more := Neighbours(m, tenant, In, graph, node, floor, st);
      ins := more.value;
      ns := ns + more.value;
    }
    ScansExpand(st, graph, directed, node, floor, outs.value, ins);
    assert ns == outs.value + ins;
  }

  /** Nodes that links lead to have names the keys can hold. */
  lemma LinkFits(m: Flat, tenant: Text, st: State, graph: Text, directed: bool, l: Link)
    requires Holding(m, tenant, st) && l in LinksOf(st, graph, directed)
    ensures Short(l.dst)
  {
    hide LinksOf, Holds, Consistent, IsEdge;
    var dir, n := LinkedNeighbour(st, graph, directed, l);
    StoredFits(m, tenant, st, dir, graph, l.src, n);
  }

  // ---- Paths ----

  ghost predicate IsPath(links: set<Link>, from: Text, p: seq<Link>, to: Text)
    decreases |p|
  {
    if p == [] then from == to
    else
      var l := p[|p| - 1];
      l in links && l.dst == to && IsPath(links, from, p[..|p| - 1], l.src)
  }

  function Min(a: Weight, b: Weight): Weight {
    if a <= b then a else b
  }

  /** The smallest weight along a path; the largest there is for the empty path. */
  function Bottleneck(p: seq<Link>): Weight
    decreases |p|
  {
    if p == [] then MaxI64 else Min(Bottleneck(p[..|p| - 1]), p[|p| - 1].weight)
  }

  lemma PathSnoc(links: set<Link>, from: Text, p: seq<Link>, l: Link)
    requires IsPath(links, from, p, l.src) && l in links
    ensures IsPath(links, from, p + [l], l.dst) && Bottleneck(p + [l]) == Min(Bottleneck(p), l.weight)
  {
    assert (p + [l])[..|p|] == p;
  }
}
