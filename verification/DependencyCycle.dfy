/**
  The three-colour depth-first search of validateDependencyCycle in
  internal/migrate/plan_validate.go: it refuses exactly the cyclic graphs, and
  what it reports is a cycle.
 */
module DependencyCycle {

  /** Each node's successors. */
  type Graph = map<string, seq<string>>

  function Succ(g: Graph, u: string): seq<string> {
    if u in g then g[u] else []
  }

  predicate Edge(g: Graph, u: string, v: string) {
    v in Succ(g, u)
  }

  /** A closed walk along edges; it may be a self-loop. */
  ghost predicate IsCycle(g: Graph, c: seq<string>) {
    && |c| >= 2 && c[0] == c[|c| - 1]
    && forall i, j :: 0 <= i && j == i + 1 < |c| ==> Edge(g, c[i], c[j])
  }

  /** A topological rank: along every edge it falls. */
  ghost predicate Ranks(g: Graph, rank: map<string, nat>) {
    forall u, v :: u in g && Edge(g, u, v) ==> u in rank && v in rank && rank[v] < rank[u]
  }

  ghost predicate Acyclic(g: Graph) {
    exists rank :: Ranks(g, rank)
  }

  lemma {:induction false} RankFallsAlong(g: Graph, rank: map<string, nat>, c: seq<string>, n: nat)
    requires Ranks(g, rank) && IsCycle(g, c) && 0 < n < |c|
    ensures c[0] in rank && c[n] in rank && rank[c[n]] < rank[c[0]]
    decreases n
  {
    assert Edge(g, c[n - 1], c[n]);
    if n > 1 {
      RankFallsAlong(g, rank, c, n - 1);
    }
  }

  /** A graph with a cycle has no topological rank. */
  lemma CycleNotAcyclic(g: Graph, c: seq<string>)
    requires IsCycle(g, c)
    ensures !Acyclic(g)
  {
    forall rank | Ranks(g, rank) ensures false {
      RankFallsAlong(g, rank, c, |c| - 1);
    }
  }

  datatype Color = White | Gray | Black

  function ColorIn(colors: map<string, Color>, u: string): Color {
    if u in colors then colors[u] else White
  }

  ghost predicate Closed(g: Graph, nodes: set<string>) {
    forall u, v :: u in nodes && Edge(g, u, v) ==> v in nodes
  }

  ghost predicate Distinct(s: seq<string>) {
    forall i, j :: 0 <= i < j < |s| ==> s[i] != s[j]
  }

  /** The path is a chain of distinct nodes, and they are the gray ones. */
  ghost predicate PathOk(g: Graph, nodes: set<string>, colors: map<string, Color>, path: seq<string>) {
    && Distinct(path)
    && (forall u :: u in path <==> ColorIn(colors, u) == Gray)
    && (forall u :: u in path ==> u in nodes)
    && (forall i, j :: 0 <= i && j == i + 1 < |path| ==> Edge(g, path[i], path[j]))
  }

  /** order lists the black nodes as they were finished: everything a node depends on comes before it. */
  ghost predicate OrderOk(g: Graph, colors: map<string, Color>, order: seq<string>) {
    && Distinct(order)
    && (forall u :: u in order <==> ColorIn(colors, u) == Black)
    && (forall i, v :: 0 <= i < |order| && Edge(g, order[i], v) ==> v in order[..i])
  }

  lemma EnterOk(g: Graph, nodes: set<string>, colors: map<string, Color>, path: seq<string>, order: seq<string>, id: string)
    requires PathOk(g, nodes, colors, path) && OrderOk(g, colors, order)
    requires id in nodes && ColorIn(colors, id) == White && (path != [] ==> Edge(g, path[|path| - 1], id))
    ensures PathOk(g, nodes, colors[id := Gray], path + [id]) && OrderOk(g, colors[id := Gray], order)
  {
    var colors' := colors[id := Gray];
    assert forall u :: u != id ==> ColorIn(colors', u) == ColorIn(colors, u);
    assert id !in path && id !in order;
  }

  lemma LeaveOk(g: Graph, nodes: set<string>, colors: map<string, Color>, path: seq<string>, order: seq<string>, id: string)
    requires PathOk(g, nodes, colors, path + [id]) && OrderOk(g, colors, order)
    requires forall v :: Edge(g, id, v) ==> v in order
    ensures PathOk(g, nodes, colors[id := Black], path) && OrderOk(g, colors[id := Black], order + [id])
  {
    var colors' := colors[id := Black];
    assert forall u :: u != id ==> ColorIn(colors', u) == ColorIn(colors, u);
    assert id in path + [id];
    assert id !in path by {
      assert (path + [id])[|path|] == id;
      assert forall i :: 0 <= i < |path| ==> (path + [id])[i] == path[i];
    }
    assert forall u :: u in path + [id] <==> u in path || u == id;
    forall i, j | 0 <= i && j == i + 1 < |path| ensures Edge(g, path[i], path[j]) {
      assert (path + [id])[i] == path[i] && (path + [id])[j] == path[j];
    }
    assert Distinct(path) by {
      assert forall i :: 0 <= i < |path| ==> (path + [id])[i] == path[i];
    }
    OrderExtends(g, order, id);
  }

  lemma OrderExtends(g: Graph, order: seq<string>, id: string)
    requires forall i, v :: 0 <= i < |order| && Edge(g, order[i], v) ==> v in order[..i]
    requires forall v :: Edge(g, id, v) ==> v in order
    ensures forall i, v :: 0 <= i < |order + [id]| && Edge(g, (order + [id])[i], v) ==> v in (order + [id])[..i]
  {
    var more := order + [id];
    forall i, v | 0 <= i < |more| && Edge(g, more[i], v) ensures v in more[..i] {
      if i < |order| {
        assert more[..i] == order[..i];
      } else {
        assert more[..i] == order;
      }
    }
  }

  /** A gray successor of the last node on the path closes a cycle. */
  lemma BackEdgeCloses(g: Graph, nodes: set<string>, colors: map<string, Color>, path: seq<string>, k: nat, v: string)
    requires PathOk(g, nodes, colors, path) && k < |path| && path[k] == v && Edge(g, path[|path| - 1], v)
    ensures IsCycle(g, path[k..] + [v])
  {
    var c := path[k..] + [v];
    forall i, j | 0 <= i && j == i + 1 < |c| ensures Edge(g, c[i], c[j]) {
      assert c[i] == path[k + i];
      if j < |c| - 1 {
        assert c[j] == path[k + j];
      }
    }
  }

  /** The search's mutable state: colors, the current path, and the cycle found. */
  class Search {
    const graph: Graph
    ghost const nodes: set<string>
    var colors: map<string, Color>
    var path: seq<string>
    var found: seq<string>
    /** The black nodes in the order they were finished. */
    ghost var order: seq<string>

    ghost predicate Valid()
      reads this
    {
      Closed(graph, nodes) && PathOk(graph, nodes, colors, path) && OrderOk(graph, colors, order)
    }

    ghost function Unvisited(): set<string>
      reads this
    {
      set u | u in nodes && ColorIn(colors, u) == White
    }

    ghost function Finished(): set<string>
      reads this
    {
      set u | u in order
    }

    constructor (g: Graph, ghost all: set<string>)
      requires Closed(g, all)
      ensures Valid() && graph == g && nodes == all
      ensures path == [] && order == []
    {
      graph, nodes := g, all;
      colors, path, found, order := map[], [], [], [];
    }

    /** The first index of u on the path. */
    method IndexOnPath(u: string) returns (k: nat)
      requires u in path
      ensures k < |path| && path[k] == u
    {
      k := 0;
      for i := 0 to |path|
        invariant forall j :: 0 <= j < i ==> path[j] != u
      {
        if path[i] == u {
          return i;
        }
      }
      assert false;
    }

    /** Explore from id; true when a cycle was found. */
    method Visit(id: string) returns (hit: bool)
      requires Valid() && id in nodes && ColorIn(colors, id) == White
      requires path != [] ==> Edge(graph, path[|path| - 1], id)
      modifies this
      ensures hit ==> IsCycle(graph, found)
      ensures !hit ==> Valid() && path == old(path) && old(Finished()) <= Finished() && id in Finished()
      ensures !hit ==> Unvisited() <= old(Unvisited())
      decreases Unvisited(), 0
    {
      Enter(id);
      var next := Succ(graph, id);
      for i := 0 to |next|
        invariant Valid() && path == old(path) + [id] && old(Finished()) <= Finished()
        invariant Unvisited() < old(Unvisited())
        invariant forall j :: 0 <= j < i ==> next[j] in Finished()
      {
        hit := Follow(id, next[i]);
        if hit {
          return;
        }
      }
      assert forall v :: Edge(graph, id, v) ==> v in next;
      Leave(id, old(path));
      return false;
    }

    /** One edge out of the last node on the path, by the color of its end. */
    method Follow(id: string, v: string) returns (hit: bool)
      requires Valid() && path != [] && path[|path| - 1] == id && Edge(graph, id, v)
      modifies this
      ensures hit ==> IsCycle(graph, found)
      ensures !hit ==> Valid() && path == old(path) && old(Finished()) <= Finished() && v in Finished()
      ensures !hit ==> Unvisited() <= old(Unvisited())
      decreases Unvisited(), 1
    {
      assert id in path;
      match ColorIn(colors, v) {
        case White =>
          hit := Visit(v);
        case Gray =>
          Report(v);
          hit := true;
        case Black =>
          hit := false;
      }
    }

    method Enter(id: string)
      requires Valid() && id in nodes && ColorIn(colors, id) == White
      requires path != [] ==> Edge(graph, path[|path| - 1], id)
      modifies this
      ensures Valid() && path == old(path) + [id] && Finished() == old(Finished())
      ensures Unvisited() < old(Unvisited())
    {
      EnterOk(graph, nodes, colors, path, order, id);
      assert id in Unvisited();
      colors, path := colors[id := Gray], path + [id];
      assert id !in Unvisited();
    }

    /** A gray successor of the last path node: the path from it, and it again. */
    method Report(v: string)
      requires Valid() && v in path && Edge(graph, path[|path| - 1], v)
      modifies this
      ensures IsCycle(graph, found)
    {
      var start := IndexOnPath(v);
      BackEdgeCloses(graph, nodes, colors, path, start, v);
      found := path[start..] + [v];
    }

    /** The node is finished: off the path, black, and last in the order. */
    method Leave(id: string, ghost rest: seq<string>)
      requires Valid() && path == rest + [id]
      requires forall v :: Edge(graph, id, v) ==> v in Finished()
      modifies this
      ensures Valid() && path == rest && Finished() == old(Finished()) + {id}
      ensures Unvisited() <= old(Unvisited())
    {
      LeaveOk(graph, nodes, colors, rest, order, id);
      path := path[..|path| - 1];
      colors := colors[id := Black];
      order := order + [id];
      assert path == rest;
    }
  }

  /** Everything named anywhere in the graph. */
  ghost function Named(g: Graph): set<string> {
    g.Keys + set u, v | u in g && v in g[u] :: v
  }

  ghost function Position(order: seq<string>, u: string): nat
    requires u in order
  {
    var i :| 0 <= i < |order| && order[i] == u;
    i
  }

  /** A finishing order in which dependencies come first is a topological rank. */
  lemma OrderRanks(g: Graph, order: seq<string>)
    requires forall u :: u in g ==> u in order
    requires forall i, v :: 0 <= i < |order| && Edge(g, order[i], v) ==> v in order[..i]
    requires forall i, j :: 0 <= i < j < |order| ==> order[i] != order[j]
    ensures Acyclic(g)
  {
    var rank := map u | u in order :: Position(order, u);
    forall u, v | u in g && Edge(g, u, v) ensures u in rank && v in rank && rank[v] < rank[u] {
      var i := Position(order, u);
      assert v in order[..i];
      var j :| 0 <= j < i && order[..i][j] == v;
      assert order[j] == v;
    }
    assert Ranks(g, rank);
  }

  /**
    Search from every node, in input order. Nothing is reported exactly when a
    topological rank exists, and what is reported is a cycle.
   */
  method FindCycle(g: Graph, ids: seq<string>) returns (cycle: seq<string>)
    requires forall u :: u in g ==> u in ids
    ensures cycle == [] <==> Acyclic(g)
    ensures cycle != [] ==> IsCycle(g, cycle)
  {
    var search := new Search(g, Named(g) + set u | u in ids);
    for i := 0 to |ids|
      invariant search.Valid() && search.path == [] && search.graph == g && search.nodes == Named(g) + set u | u in ids
      invariant forall j :: 0 <= j < i ==> ids[j] in search.Finished()
    {
      if ColorIn(search.colors, ids[i]) == White {
        var hit := search.Visit(ids[i]);
        if hit {
          CycleNotAcyclic(g, search.found);
          return search.found;
        }
      }
    }
    OrderRanks(g, search.order);
    return [];
  }
}
