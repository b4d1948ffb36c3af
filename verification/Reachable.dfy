/** Bounded reachability: a breadth-first search whose levels are scanned by concurrent
    tasks that may finish in any order. */
module Reachable {
  import opened Adjacency
  import opened Bytes
  import opened Keys
  import opened Links
  import opened Store

  const FanOut := 16

  ghost function Wide(links: set<Link>, floor: Weight): set<Link> {
    set l | l in links && l.weight >= floor
  }

  /** A seed, or at the end of a path from a seed over links at or above the floor. */
  ghost predicate Reached(links: set<Link>, floor: Weight, seeds: seq<Text>, v: Text) {
    exists s, p :: s in seeds && IsPath(Wide(links, floor), s, p, v)
  }

  // ---- One level ----

  ghost predicate LeadsTo(links: set<Link>, floor: Weight, nodes: seq<Text>, v: Text) {
    exists l :: l in links && l.weight >= floor && l.src in nodes && l.dst == v
  }

  /** `found` are the ends of the links out of the nodes. */
  ghost predicate IsLevel(links: set<Link>, floor: Weight, nodes: seq<Text>, found: seq<Text>) {
    forall v :: v in found <==> LeadsTo(links, floor, nodes, v)
  }

  method NodesOnly(ns: seq<Neighbour>) returns (nodes: seq<Text>)
    ensures |nodes| == |ns| && forall i :: 0 <= i < |ns| ==> nodes[i] == ns[i].node
  {
    nodes := [];
    for i := 0 to |ns|
      invariant |nodes| == i && forall j :: 0 <= j < i ==> nodes[j] == ns[j].node
    {
      nodes := nodes + [ns[i].node];
    }
  }

  lemma ExpansionLeads(links: set<Link>, floor: Weight, node: Text, ns: seq<Neighbour>, nodes: seq<Text>, v: Text)
    requires IsExpansion(links, node, floor, ns)
    requires |nodes| == |ns| && forall i :: 0 <= i < |ns| ==> nodes[i] == ns[i].node
    ensures v in nodes <==> LeadsTo(links, floor, [node], v)
  {
    if v in nodes {
      var i :| 0 <= i < |nodes| && nodes[i] == v;
      assert ns[i] in ns;
      assert Link(node, ns[i].weight, v) in links;
    }
    if LeadsTo(links, floor, [node], v) {
      var l :| l in links && l.weight >= floor && l.src in [node] && l.dst == v;
      assert Leads(ns, l);
      var i :| 0 <= i < |ns| && ns[i].node == v;
      assert nodes[i] == v;
    }
  }

  lemma LevelSnoc(links: set<Link>, floor: Weight, done: seq<Text>, found: seq<Text>, node: Text, ns: seq<Neighbour>, nodes: seq<Text>)
    requires IsLevel(links, floor, done, found) && IsExpansion(links, node, floor, ns)
    requires |nodes| == |ns| && forall i :: 0 <= i < |ns| ==> nodes[i] == ns[i].node
    ensures IsLevel(links, floor, done + [node], found + nodes)
  {
    hide IsExpansion;
    forall v
      ensures v in found + nodes <==> LeadsTo(links, floor, done + [node], v)
    {
      ExpansionLeads(links, floor, node, ns, nodes, v);
    }
  }

  lemma LevelSame(links: set<Link>, floor: Weight, done: seq<Text>, nodes: seq<Text>, found: seq<Text>)
    requires IsLevel(links, floor, done, found) && forall x :: x in done <==> x in nodes
    ensures IsLevel(links, floor, nodes, found)
  {
    forall v
      ensures LeadsTo(links, floor, done, v) <==> LeadsTo(links, floor, nodes, v)
    {
    }
  }

  /** Every node of the level is done, being scanned, or still to be started. */
  ghost predicate Scheduled(nodes: seq<Text>, next: nat, running: seq<Text>, done: seq<Text>) {
    && next <= |nodes|
    && (forall x :: x in nodes[..next] <==> x in running || x in done)
    && |running| <= FanOut
    && (next < |nodes| ==> |running| == FanOut)
  }

  /** Scans the nodes of a level, at most sixteen at a time; whichever running scan finishes
      first is taken, and the next node started in its place. */
  method ExpandLevel(view: Flat, tenant: Text, graph: Text, nodes: seq<Text>, floor: Weight, directed: bool, ghost st: State)
    returns (found: seq<Text>)
    requires Holding(view, tenant, st) && Short(graph) && forall n :: n in nodes ==> Short(n)
    ensures IsLevel(LinksOf(st, graph, directed), floor, nodes, found)
  {
    hide Holding, LinksOf, IsLevel, IsExpansion, Short;
    ghost var links := LinksOf(st, graph, directed);
    var running: seq<Text> := [];
    var next := 0;
    while next < FanOut && next < |nodes|
      invariant next <= |nodes| && next <= FanOut && running == nodes[..next]
    {
      running, next := running + [nodes[next]], next + 1;
    }
    found := [];
    ghost var done: seq<Text> := [];
    NoLevel(links, floor);
    while running != []
      invariant Scheduled(nodes, next, running, done)
      invariant IsLevel(links, floor, done, found)
      decreases |nodes| - next, |running|
    {
      var k: nat :| k < |running|;
      var node := running[k];
      InLevel(nodes, next, running, done, node);
      ghost var before := running;
      running := running[..k] + running[k + 1..];
      var ns := Expand(view, tenant, graph, node, floor, directed, st);
      var more := NodesOnly(ns);
      LevelSnoc(links, floor, done, found, node, ns, more);
      found := found + more;
      JoinKeeps(nodes, next, before, done, k);
      done := done + [node];
      if next < |nodes| {
        StartsNext(nodes, next, running, done);
        running, next := running + [nodes[next]], next + 1;
      }
    }
    assert nodes[..next] == nodes;
    LevelSame(links, floor, done, nodes, found);
  }

  lemma NoLevel(links: set<Link>, floor: Weight)
    ensures IsLevel(links, floor, [], [])
  {
  }

  lemma InLevel(nodes: seq<Text>, next: nat, running: seq<Text>, done: seq<Text>, node: Text)
    requires Scheduled(nodes, next, running, done) && node in running
    ensures node in nodes
  {
    assert node in nodes[..next];
  }

  /** A finished scan moves its node from running to done. */
  lemma JoinKeeps(nodes: seq<Text>, next: nat, running: seq<Text>, done: seq<Text>, k: nat)
    requires Scheduled(nodes, next, running, done) && k < |running|
    ensures var rest := running[..k] + running[k + 1..];
            && |rest| == |running| - 1
            && forall x :: x in nodes[..next] <==> x in rest || x in done + [running[k]]
  {
    var rest := running[..k] + running[k + 1..];
    forall x
      ensures x in running <==> x in rest || x == running[k]
    {
      if x in running && x != running[k] {
        var i :| 0 <= i < |running| && running[i] == x;
        assert rest[if i < k then i else i - 1] == x;
      }
    }
  }

  lemma StartsNext(nodes: seq<Text>, next: nat, running: seq<Text>, done: seq<Text>)
    requires next < |nodes| && forall x :: x in nodes[..next] <==> x in running || x in done
    ensures forall x :: x in nodes[..next + 1] <==> x in running + [nodes[next]] || x in done
  {
    assert nodes[..next + 1] == nodes[..next] + [nodes[next]];
  }

  // ---- The search ----

  /** Everything visited is reached, and every visited node outside the frontier has its
      neighbours visited. */
  ghost predicate Exploring(links: set<Link>, floor: Weight, seeds: seq<Text>, visited: set<Text>, frontier: seq<Text>) {
    && (forall s :: s in seeds ==> s in visited)
    && (forall v :: v in visited ==> Reached(links, floor, seeds, v))
    && (forall v :: v in frontier ==> v in visited)
    && (forall l :: l in links && l.weight >= floor && l.src in visited && l.src !in frontier ==> l.dst in visited)
  }

  /** Adds the nodes of a list that are new, and collects them. */
  method Visit(visited: set<Text>, nodes: seq<Text>) returns (now: set<Text>, unseen: seq<Text>)
    ensures now == visited + set v | v in nodes
    ensures forall v :: v in unseen <==> v in nodes && v !in visited
    ensures forall i, j :: 0 <= i < j < |unseen| ==> unseen[i] != unseen[j]
  {
    now, unseen := visited, [];
    for i := 0 to |nodes|
      invariant now == visited + set v | v in nodes[..i]
      invariant forall v :: v in unseen <==> v in nodes[..i] && v !in visited
      invariant forall i, j :: 0 <= i < j < |unseen| ==> unseen[i] != unseen[j]
    {
      assert nodes[..i + 1] == nodes[..i] + [nodes[i]];
      if nodes[i] !in now {
        now, unseen := now + {nodes[i]}, unseen + [nodes[i]];
      }
    }
    assert nodes[..|nodes|] == nodes;
  }

  lemma LevelReached(links: set<Link>, floor: Weight, seeds: seq<Text>, l: Link)
    requires Reached(links, floor, seeds, l.src) && l in links && l.weight >= floor
    ensures Reached(links, floor, seeds, l.dst)
  {
    hide IsPath;
    var s, p :| s in seeds && IsPath(Wide(links, floor), s, p, l.src);
    PathSnoc(Wide(links, floor), s, p, l);
  }

  lemma LevelKeeps(links: set<Link>, floor: Weight, seeds: seq<Text>, visited: set<Text>, frontier: seq<Text>,
                   found: seq<Text>, now: set<Text>, unseen: seq<Text>)
    requires Exploring(links, floor, seeds, visited, frontier) && IsLevel(links, floor, frontier, found)
    requires now == visited + set v | v in found
    requires forall v :: v in unseen <==> v in found && v !in visited
    ensures Exploring(links, floor, seeds, now, unseen)
  {
    hide Reached;
    forall v | v in now
      ensures Reached(links, floor, seeds, v)
    {
      if v !in visited {
        assert v in found;
        var l :| l in links && l.weight >= floor && l.src in frontier && l.dst == v;
        LevelReached(links, floor, seeds, l);
      }
    }
    forall l | l in links && l.weight >= floor && l.src in now && l.src !in unseen
      ensures l.dst in now
    {
      if l.src in frontier {
        assert LeadsTo(links, floor, frontier, l.dst);
      }
    }
  }

  lemma {:induction false} ClosedIsReached(links: set<Link>, floor: Weight, seeds: seq<Text>, visited: set<Text>,
                                           s: Text, p: seq<Link>, v: Text)
    requires Exploring(links, floor, seeds, visited, []) && s in seeds && IsPath(Wide(links, floor), s, p, v)
    ensures v in visited
    decreases |p|
  {
    hide Reached;
    if p != [] {
      ClosedIsReached(links, floor, seeds, visited, s, p[..|p| - 1], p[|p| - 1].src);
    }
  }

  lemma SeedsReached(links: set<Link>, floor: Weight, seeds: seq<Text>, v: Text)
    requires v in seeds
    ensures Reached(links, floor, seeds, v)
  {
    assert IsPath(Wide(links, floor), v, [], v);
  }

  lemma ReachedNode(links: set<Link>, floor: Weight, seeds: seq<Text>, v: Text)
    requires Reached(links, floor, seeds, v)
    ensures v in seeds || exists l :: l in links && l.dst == v
  {
    var s, p :| s in seeds && IsPath(Wide(links, floor), s, p, v);
  }

  lemma ReachedFits(view: Flat, tenant: Text, st: State, graph: Text, directed: bool, floor: Weight, seeds: seq<Text>, v: Text)
    requires Holding(view, tenant, st) && (forall s :: s in seeds ==> Short(s))
    requires Reached(LinksOf(st, graph, directed), floor, seeds, v)
    ensures Short(v) && v in NodesOf(LinksOf(st, graph, directed), set s | s in seeds)
  {
    hide Holding, LinksOf, Reached, Short;
    ReachedNode(LinksOf(st, graph, directed), floor, seeds, v);
    if v !in seeds {
      var l :| l in LinksOf(st, graph, directed) && l.dst == v;
      LinkFits(view, tenant, st, graph, directed, l);
    }
  }

  lemma AllFit(view: Flat, tenant: Text, st: State, graph: Text, directed: bool, floor: Weight, seeds: seq<Text>,
               visited: set<Text>, frontier: seq<Text>)
    requires Holding(view, tenant, st) && (forall s :: s in seeds ==> Short(s))
    requires Exploring(LinksOf(st, graph, directed), floor, seeds, visited, frontier)
    ensures visited <= NodesOf(LinksOf(st, graph, directed), set s | s in seeds)
    ensures forall v :: v in frontier ==> Short(v)
  {
    hide Holding, LinksOf, Reached, Short, NodesOf;
    forall v | v in visited
      ensures Short(v) && v in NodesOf(LinksOf(st, graph, directed), set s | s in seeds)
    {
      ReachedFits(view, tenant, st, graph, directed, floor, seeds, v);
    }
  }

  /** The view is pinned for the whole search: every scan of every level reads it, whatever
      is committed meanwhile. */
  method Search(view: Flat, tenant: Text, graph: Text, seeds: seq<Text>, floor: Weight, directed: bool, ghost st: State)
    returns (out: seq<Text>)
    requires Holding(view, tenant, st) && Short(graph) && forall s :: s in seeds ==> Short(s)
    ensures Ascending(out)
    ensures forall v :: v in out <==> Reached(LinksOf(st, graph, directed), floor, seeds, v)
  {
    hide Holding, LinksOf, Reached, Short, IsLevel, Exploring, Ascending, NodesOf;
    ghost var links := LinksOf(st, graph, directed);
    ghost var all := NodesOf(links, set s | s in seeds);
    var visited, frontier := Visit({}, seeds);
    SeedsExplore(links, floor, seeds, visited, frontier);
    AllFit(view, tenant, st, graph, directed, floor, seeds, visited, frontier);
    while frontier != []
      invariant Exploring(links, floor, seeds, visited, frontier)
      invariant visited <= all && forall v :: v in frontier ==> Short(v)
      decreases all - visited, |frontier|
    {
      var found := ExpandLevel(view, tenant, graph, frontier, floor, directed, st);
      var now, unseen := Visit(visited, found);
      LevelKeeps(links, floor, seeds, visited, frontier, found, now, unseen);
      AllFit(view, tenant, st, graph, directed, floor, seeds, now, unseen);
      if unseen == [] {
        Unchanged(visited, found, now);
      } else {
        assert unseen[0] in now - visited;
      }
      visited, frontier := now, unseen;
    }
    IsComplete(links, floor, seeds, visited);
    out := Sort(visited);
  }

  lemma Unchanged(visited: set<Text>, found: seq<Text>, now: set<Text>)
    requires now == visited + (set v | v in found) && forall v :: v in found ==> v in visited
    ensures now == visited
  {
  }

  lemma SeedsExplore(links: set<Link>, floor: Weight, seeds: seq<Text>, visited: set<Text>, frontier: seq<Text>)
    requires visited == {} + (set v | v in seeds) && forall v :: v in frontier <==> v in seeds
    ensures Exploring(links, floor, seeds, visited, frontier)
  {
    hide Reached;
    forall v | v in visited
      ensures Reached(links, floor, seeds, v)
    {
      SeedsReached(links, floor, seeds, v);
    }
  }

  lemma IsComplete(links: set<Link>, floor: Weight, seeds: seq<Text>, visited: set<Text>)
    requires Exploring(links, floor, seeds, visited, [])
    ensures forall v :: v in visited <==> Reached(links, floor, seeds, v)
  {
    hide IsPath;
    forall v | Reached(links, floor, seeds, v)
      ensures v in visited
    {
      var s, p :| s in seeds && IsPath(Wide(links, floor), s, p, v);
      ClosedIsReached(links, floor, seeds, visited, s, p, v);
    }
  }
}
