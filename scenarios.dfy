/**
 * End-to-end behaviour of `solve` on the graphs the service is meant to
 * handle: a triangle needs three colours, a single edge gets two different
 * colours, and a graph without edges is coloured 0 throughout without a
 * single conflict.
 */
module Scenarios {
  import opened Wrappers
  import opened Graph
  import opened Ordering
  import opened Coloring
  import opened Search
  import opened Server

  /** The vertex list `[a, b, c]` of a triangle. */
  function TriangleNodes(a: Vertex, b: Vertex, c: Vertex): seq<Vertex>
  {
    [a, b, c]
  }

  /** The three edges of the triangle on `a`, `b` and `c`. */
  function TriangleEdges(a: Vertex, b: Vertex, c: Vertex): seq<Edge>
  {
    [Edge(a, b), Edge(b, c), Edge(c, a)]
  }

  /** In a triangle every two distinct vertices are neighbours. */
  lemma TriangleNeighbours(a: Vertex, b: Vertex, c: Vertex, u: Vertex, v: Vertex)
    requires a != b && b != c && a != c
    requires u in TriangleNodes(a, b, c) && v in TriangleNodes(a, b, c) && u != v
    ensures var g := Adjacency(TriangleNodes(a, b, c), TriangleEdges(a, b, c));
      u in g.lists && v in g.lists[u]
  {
    var edges := TriangleEdges(a, b, c);
    var e := if Joins(edges[0], u, v) then edges[0] else if Joins(edges[1], u, v) then edges[1] else edges[2];
    assert e in edges && Joins(e, u, v);
    AdjacencyNeighbours(TriangleNodes(a, b, c), edges, u, v);
  }

  /** A triangle has no 2-colouring. */
  lemma TriangleNotTwoColorable(a: Vertex, b: Vertex, c: Vertex)
    requires a != b && b != c && a != c
    ensures !Colorable(Adjacency(TriangleNodes(a, b, c), TriangleEdges(a, b, c)), 2)
  {
    var g := Adjacency(TriangleNodes(a, b, c), TriangleEdges(a, b, c));
    TriangleNeighbours(a, b, c, a, b);
    TriangleNeighbours(a, b, c, b, c);
    TriangleNeighbours(a, b, c, a, c);
    forall f | IsColoring(g, 2, f)
      ensures false
    {
    }
  }

  /** With two colours `solve` finds no colouring of a triangle, and says so. */
  lemma TriangleTwoColours(a: Vertex, b: Vertex, c: Vertex, order: Option<string>)
    requires a != b && b != c && a != c
    ensures var resp := Solve(Request(TriangleNodes(a, b, c), TriangleEdges(a, b, c), 2, order));
      && !resp.ok
      && resp.colors == map[]
      && resp.message == NoColoring
  {
    TriangleNotTwoColorable(a, b, c);
  }

  /** Giving every vertex its own colour from `[0, k)` is a k-colouring of whatever graph the edges describe. */
  lemma DistinctColorsColor(nodes: seq<Vertex>, edges: seq<Edge>, k: int, f: map<Vertex, int>)
    requires forall u :: u in f <==> u in nodes
    requires InRange(k, f)
    requires forall u, v | u in f && v in f && u != v :: f[u] != f[v]
    ensures Colorable(Adjacency(nodes, edges), k)
  {
    var g := Adjacency(nodes, edges);
    AdjacencyKeys(nodes, edges);
    forall u, v | u in f && u in g.lists && v in g.lists[u] && v in f
      ensures f[u] != f[v]
    {
      AdjacencyNeighbours(nodes, edges, u, v);
    }
    assert IsColoring(g, k, f);
  }

  /** A colouring `solve` returns keeps the two ends of every edge of the graph apart. */
  lemma SolvedApart(req: Request, u: Vertex, v: Vertex)
    requires ValidK(req.kColors) && req.nodes != []
    ensures var g := Adjacency(req.nodes, req.edges);
      Solve(req).ok && u in g.lists && v in g.lists[u] ==>
        && u in Solve(req).colors && v in Solve(req).colors
        && Solve(req).colors[u] != Solve(req).colors[v]
  {
    var g := Adjacency(req.nodes, req.edges);
    var f := Solve(req).colors;
    if Solve(req).ok && u in g.lists && v in g.lists[u] {
      AdjacencyWellFormed(req.nodes, req.edges);
      assert IsColoring(g, req.kColors, f);
      AdjacencyNeighbours(req.nodes, req.edges, u, v);
      AdjacencyKeys(req.nodes, req.edges);
      assert v in g.lists;
      assert Proper(g, f);
    }
  }

  /** With three colours `solve` colours a triangle, one colour per vertex. */
  lemma TriangleThreeColours(a: Vertex, b: Vertex, c: Vertex, order: Option<string>)
    requires a != b && b != c && a != c
    ensures var resp := Solve(Request(TriangleNodes(a, b, c), TriangleEdges(a, b, c), 3, order));
      && resp.ok
      && resp.message == SolutionFound
      && (forall u | u in TriangleNodes(a, b, c) :: u in resp.colors && 0 <= resp.colors[u] < 3)
      && resp.colors[a] != resp.colors[b]
      && resp.colors[b] != resp.colors[c]
      && resp.colors[a] != resp.colors[c]
  {
    var req := Request(TriangleNodes(a, b, c), TriangleEdges(a, b, c), 3, order);
    DistinctColorsColor(req.nodes, req.edges, 3, map[a := 0, b := 1, c := 2]);
    AdjacencyKeys(req.nodes, req.edges);
    TriangleNeighbours(a, b, c, a, b);
    TriangleNeighbours(a, b, c, b, c);
    TriangleNeighbours(a, b, c, a, c);
    SolvedApart(req, a, b);
    SolvedApart(req, b, c);
    SolvedApart(req, a, c);
  }

  /** A single edge between distinct vertices: `solve` gives its two ends different colours. */
  lemma SingleEdge(a: Vertex, b: Vertex, order: Option<string>)
    requires a != b
    ensures var resp := Solve(Request([a, b], [Edge(a, b)], 2, order));
      && resp.ok
      && resp.message == SolutionFound
      && a in resp.colors && b in resp.colors
      && resp.colors[a] != resp.colors[b]
  {
    var req := Request([a, b], [Edge(a, b)], 2, order);
    DistinctColorsColor(req.nodes, req.edges, 2, map[a := 0, b := 1]);
    assert req.edges[0] in req.edges && Joins(req.edges[0], a, b);
    AdjacencyNeighbours(req.nodes, req.edges, a, b);
    SolvedApart(req, a, b);
  }

  /** No step of the trace is a `conflict`. */
  predicate NoConflict(s: seq<Step>)
  {
    forall j :: 0 <= j < |s| ==> s[j].action != Conflict
  }

  /**
   * Without edges every vertex has colour 0 free: `backtrack(i)` succeeds on
   * the first colour at every level, colours every remaining vertex 0 and
   * records no conflict.
   */
  lemma {:induction false} EdgelessExplore(g: Adj, nodes: seq<Vertex>, k: int, i: nat, m: map<Vertex, int>)
    requires i <= |nodes| && Known(g, nodes) && 1 <= k
    requires forall u | u in g.lists :: g.lists[u] == []
    requires forall v | v in m :: m[v] == 0
    ensures var r := Explore(g, nodes, k, i, m);
      && r.ok
      && (forall v | v in r.colors :: r.colors[v] == 0)
      && (forall v | v in m :: v in r.colors)
      && (forall v | v in nodes[i..] :: v in r.colors)
      && NoConflict(r.steps)
    decreases |nodes| - i
  {
    if i < |nodes| {
      var u := nodes[i];
      var m1 := m[u := 0];
      assert Compatible(u, 0, m, g);
      EdgelessExplore(g, nodes, k, i + 1, m1);
      var sub := Explore(g, nodes, k, i + 1, m1);
      var a := Attempt(g, nodes, k, i, m, 0);
      var head := [Step(Try, u, Some(0), m), Step(Assign, u, Some(0), m1)];
      assert a == Outcome(true, sub.colors, head + sub.steps);
      assert TryColors(g, nodes, k, i, m, 0) == a;
      assert nodes[i..] == [u] + nodes[i + 1..];
      forall j | 0 <= j < |a.steps|
        ensures a.steps[j].action != Conflict
      {
        if j >= 2 {
          assert a.steps[j] == sub.steps[j - 2];
        }
      }
    }
  }

  /**
   * A request without edges and with a valid colour count always succeeds:
   * every vertex gets colour 0 and the trace holds no conflict.
   */
  lemma EdgelessAllZero(nodes: seq<Vertex>, k: int, order: Option<string>)
    requires nodes != [] && ValidK(k)
    ensures var resp := Solve(Request(nodes, [], k, order));
      && resp.ok
      && resp.message == SolutionFound
      && (forall v | v in nodes :: v in resp.colors && resp.colors[v] == 0)
      && NoConflict(resp.steps)
  {
    var g := Adjacency(nodes, []);
    var o := EffectiveOrder(order);
    var ordered := OrderNodes(g, o);
    AdjacencyKeys(nodes, []);
    OrderNodesSpec(g, o);
    EdgelessExplore(g, ordered, k, 0, map[]);
    assert ordered[0..] == ordered;
  }
}
