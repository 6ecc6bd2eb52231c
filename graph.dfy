/**
 * The Graph Builder: an undirected adjacency dictionary built from a vertex
 * list and an edge list (`build_adj`). Self-loops, edges with an unknown
 * endpoint and repeated edges are dropped.
 */
module Graph {

  type Vertex = string

  /** An edge of the request, as given: it may be a self-loop, repeat another edge or name an unknown vertex. */
  datatype Edge = Edge(src: Vertex, dst: Vertex)

  /**
   * A dictionary from vertex to neighbour list. A dictionary remembers the
   * order in which its keys were inserted, and that order drives the vertex
   * ordering, so the keys are kept as a sequence beside the lookup map.
   */
  datatype AdjMap = AdjMap(keys: seq<Vertex>, lists: map<Vertex, seq<Vertex>>)

  predicate NoDup<T(==)>(s: seq<T>)
  {
    forall a, b :: 0 <= a < b < |s| ==> s[a] != s[b]
  }

  /** Concatenation regroups freely; stated once so that proofs need not re-derive it element by element. */
  lemma ConcatAssoc<T>(a: seq<T>, b: seq<T>, c: seq<T>)
    ensures a + (b + c) == (a + b) + c
  {
  }

  /** The keys of a dictionary are distinct and are exactly the keys of its lookup. */
  predicate IsDict(d: AdjMap)
  {
    && NoDup(d.keys)
    && (forall x | x in d.lists :: x in d.keys)
    && (forall x | x in d.keys :: x in d.lists)
  }

  /** A dictionary: an `AdjMap` whose keys are distinct and match its lookup. */
  type Adj = d: AdjMap | IsDict(d) witness AdjMap([], map[])

  /** Every vertex of `s` is a key of `g`. */
  predicate Known(g: Adj, s: seq<Vertex>)
  {
    forall x :: x in s ==> x in g.lists
  }

  /** True when `e` joins `u` and `v`, given in either direction. */
  predicate Joins(e: Edge, u: Vertex, v: Vertex)
  {
    (e.src == u && e.dst == v) || (e.src == v && e.dst == u)
  }

  /**
   * The adjacency relation of an undirected simple graph: neighbour lists
   * without repeats, no vertex its own neighbour, every neighbour a key, and
   * the relation symmetric.
   */
  ghost predicate WellFormed(g: Adj)
  {
    && (forall u | u in g.lists :: NoDup(g.lists[u]) && u !in g.lists[u])
    && (forall u, v | u in g.lists && v in g.lists[u] :: v in g.lists && u in g.lists[v])
  }

  /** The keys of `{u: [] for u in nodes}`: the distinct nodes in order of first occurrence. */
  function Distinct(s: seq<Vertex>): (r: seq<Vertex>)
    ensures NoDup(r)
    ensures forall x :: x in r <==> x in s
  {
    if s == [] then []
    else
      var d := Distinct(s[..|s| - 1]);
      assert s == s[..|s| - 1] + [s[|s| - 1]];
      if s[|s| - 1] in d then d else d + [s[|s| - 1]]
  }

  /** The position of the first occurrence of `x` in `s`. */
  function IndexOf(s: seq<Vertex>, x: Vertex): (j: nat)
    requires x in s
    ensures j < |s| && s[j] == x && x !in s[..j]
  {
    if s[0] == x then 0
    else
      assert s[1..][IndexOf(s[1..], x)] == x;
      1 + IndexOf(s[1..], x)
  }

  /** The dictionary `{u: [] for u in nodes}`. */
  function Empty(nodes: seq<Vertex>): (g: Adj)
  {
    AdjMap(Distinct(nodes), map u | u in nodes :: [])
  }

  /** One iteration of the loop over the edges of `build_adj`. */
  function AddEdge(g: Adj, e: Edge): (r: Adj)
    ensures r.keys == g.keys
  {
    if e.src in g.lists && e.dst in g.lists && e.src != e.dst then
      var l1 := if e.dst in g.lists[e.src] then g.lists else g.lists[e.src := g.lists[e.src] + [e.dst]];
      var l2 := if e.src in l1[e.dst] then l1 else l1[e.dst := l1[e.dst] + [e.src]];
      AdjMap(g.keys, l2)
    else g
  }

  /** The loop over the edges of `build_adj`, from the first edge to the last. */
  function AddEdges(g: Adj, es: seq<Edge>): (r: Adj)
    ensures r.keys == g.keys
  {
    if es == [] then g else AddEdge(AddEdges(g, es[..|es| - 1]), es[|es| - 1])
  }

  /** The dictionary that `build_adj(nodes, edges)` returns. */
  function Adjacency(nodes: seq<Vertex>, edges: seq<Edge>): Adj
  {
    AddEdges(Empty(nodes), edges)
  }

  /** `build_adj`: start from empty neighbour lists and add each edge in turn. */
  method BuildAdj(nodes: seq<Vertex>, edges: seq<Edge>) returns (g: Adj)
    ensures g == Adjacency(nodes, edges)
  {
    var keys := Distinct(nodes);
    var lists: map<Vertex, seq<Vertex>> := map u | u in nodes :: [];
    var i := 0;
    while i < |edges|
      invariant 0 <= i <= |edges|
      invariant IsDict(AdjMap(keys, lists))
      invariant AdjMap(keys, lists) == AddEdges(Empty(nodes), edges[..i])
    {
      var e := edges[i];
      assert edges[..i + 1][..i] == edges[..i];
      if e.src in lists && e.dst in lists && e.src != e.dst {
        if e.dst !in lists[e.src] {
          lists := lists[e.src := lists[e.src] + [e.dst]];
        }
        if e.src !in lists[e.dst] {
          lists := lists[e.dst := lists[e.dst] + [e.src]];
        }
      }
      i := i + 1;
    }
    assert edges[..i] == edges;
    g := AdjMap(keys, lists);
  }

  // ---------------------------------------------------------------------
  // Properties of the dictionary `build_adj` returns
  // ---------------------------------------------------------------------

  /** The first occurrence of `x` in a prefix `p` of `s` is its first occurrence in `s`. */
  lemma IndexOfPrefix(s: seq<Vertex>, n: nat, x: Vertex)
    requires n <= |s| && x in s[..n]
    ensures x in s && IndexOf(s, x) == IndexOf(s[..n], x)
  {
    var j1, j2 := IndexOf(s, x), IndexOf(s[..n], x);
    assert s[j2] == x;
    assert j2 <= j1;
    assert s[..n][j1] == x by { assert j1 <= j2; }
  }

  /** `Distinct` lists each node where it first occurs in the input. */
  lemma {:induction false} DistinctFirstOccurrence(s: seq<Vertex>)
    ensures forall a, b :: 0 <= a < b < |Distinct(s)| ==> IndexOf(s, Distinct(s)[a]) < IndexOf(s, Distinct(s)[b])
  {
    if s != [] {
      var n := |s| - 1;
      var p := s[..n];
      var d := Distinct(p);
      DistinctFirstOccurrence(p);
      forall x | x in d
        ensures x in s && IndexOf(s, x) == IndexOf(p, x) < n
      {
        IndexOfPrefix(s, n, x);
      }
      if s[n] !in d {
        assert s[n] !in p;
        assert s[..n + 1] == s;
        assert IndexOf(s, s[n]) == n;
      }
    }
  }

  /** The keys of the result are the distinct input nodes, in order of first occurrence. */
  lemma AdjacencyKeys(nodes: seq<Vertex>, edges: seq<Edge>)
    ensures var g := Adjacency(nodes, edges);
      && g.keys == Distinct(nodes)
      && (forall x :: x in g.lists <==> x in nodes)
      && forall a, b :: 0 <= a < b < |g.keys| ==> IndexOf(nodes, g.keys[a]) < IndexOf(nodes, g.keys[b])
  {
    DistinctFirstOccurrence(nodes);
  }

  /**
   * What one edge adds: `v` becomes a neighbour of `u` exactly when the edge
   * is accepted and joins them. An endpoint's list gains at most the other
   * endpoint, at its end; every other list is untouched.
   */
  lemma AddEdgeNeighbours(g: Adj, e: Edge, u: Vertex, v: Vertex)
    requires u in g.lists
    ensures var r := AddEdge(g, e);
      u in r.lists && (v in r.lists[u] <==> v in g.lists[u] || (u != v && v in g.lists && Joins(e, u, v)))
    ensures var r := AddEdge(g, e);
      r.lists.Keys == g.lists.Keys
      && (u != e.src && u != e.dst ==> r.lists[u] == g.lists[u])
      && (u == e.src ==> r.lists[u] == g.lists[u] || r.lists[u] == g.lists[u] + [e.dst])
      && (u == e.dst ==> r.lists[u] == g.lists[u] || r.lists[u] == g.lists[u] + [e.src])
  {
  }

  /** Adding an edge keeps the relation that of an undirected simple graph. */
  lemma AddEdgeWellFormed(g: Adj, e: Edge)
    requires WellFormed(g)
    ensures WellFormed(AddEdge(g, e))
  {
    var r := AddEdge(g, e);
    forall u | u in r.lists
      ensures NoDup(r.lists[u]) && u !in r.lists[u]
    {
      AddEdgeNeighbours(g, e, u, u);
    }
    forall u, v | u in r.lists && v in r.lists[u]
      ensures v in r.lists && u in r.lists[v]
    {
      AddEdgeNeighbours(g, e, u, v);
      AddEdgeNeighbours(g, e, v, u);
    }
  }

  lemma {:induction false} AddEdgesWellFormed(g: Adj, es: seq<Edge>)
    requires WellFormed(g)
    ensures WellFormed(AddEdges(g, es))
  {
    if es != [] {
      AddEdgesWellFormed(g, es[..|es| - 1]);
      AddEdgeWellFormed(AddEdges(g, es[..|es| - 1]), es[|es| - 1]);
    }
  }

  /** Neighbour lists have no repeats, never hold their own key, hold only input nodes, and the relation is symmetric. */
  lemma AdjacencyWellFormed(nodes: seq<Vertex>, edges: seq<Edge>)
    ensures WellFormed(Adjacency(nodes, edges))
  {
    AddEdgesWellFormed(Empty(nodes), edges);
  }

  lemma {:induction false} AddEdgesNeighbours(g: Adj, es: seq<Edge>, u: Vertex, v: Vertex)
    requires u in g.lists
    ensures var r := AddEdges(g, es);
      u in r.lists && (v in r.lists[u] <==> v in g.lists[u] || (u != v && v in g.lists && exists e :: e in es && Joins(e, u, v)))
  {
    if es != [] {
      var p := es[..|es| - 1];
      var last := es[|es| - 1];
      AddEdgesNeighbours(g, p, u, v);
      AddEdgeNeighbours(AddEdges(g, p), last, u, v);
      JoinsSplit(es, u, v);
    }
  }

  /** Some edge of `es` joins `u` and `v` exactly when some edge before the last does, or the last does. */
  lemma JoinsSplit(es: seq<Edge>, u: Vertex, v: Vertex)
    requires es != []
    ensures (exists e :: e in es && Joins(e, u, v))
        <==> (exists e :: e in es[..|es| - 1] && Joins(e, u, v)) || Joins(es[|es| - 1], u, v)
  {
    assert es == es[..|es| - 1] + [es[|es| - 1]];
  }

  /** `v` is a neighbour of `u` exactly when some edge joins two distinct known nodes `u` and `v`, in either direction. */
  lemma AdjacencyNeighbours(nodes: seq<Vertex>, edges: seq<Edge>, u: Vertex, v: Vertex)
    ensures var g := Adjacency(nodes, edges);
      (u in g.lists && v in g.lists[u]) <==> (u in nodes && v in nodes && u != v && exists e :: e in edges && Joins(e, u, v))
  {
    if u in nodes {
      AddEdgesNeighbours(Empty(nodes), edges, u, v);
    }
  }

  lemma AddEdgesLast(g: Adj, es: seq<Edge>)
    requires es != []
    ensures AddEdges(g, es) == AddEdge(AddEdges(g, es[..|es| - 1]), es[|es| - 1])
  {
  }

  lemma {:induction false} AddEdgesAppend(g: Adj, x: seq<Edge>, y: seq<Edge>)
    ensures AddEdges(g, x + y) == AddEdges(AddEdges(g, x), y)
  {
    if y != [] {
      var n := |y| - 1;
      var xy := x + y;
      assert xy[..|xy| - 1] == x + y[..n];
      assert xy[|xy| - 1] == y[n];
      AddEdgesLast(g, xy);
      AddEdgesLast(AddEdges(g, x), y);
      AddEdgesAppend(g, x, y[..n]);
    } else {
      assert x + y == x;
    }
  }

  /** An edge that repeats an earlier edge, or gives it reversed, changes nothing, wherever it stands. */
  lemma RepeatedEdgeIgnored(nodes: seq<Vertex>, a: seq<Edge>, e: Edge, b: seq<Edge>)
    requires exists e' :: e' in a && Joins(e', e.src, e.dst)
    ensures Adjacency(nodes, a + [e] + b) == Adjacency(nodes, a + b)
  {
    var g0 := Empty(nodes);
    var g := AddEdges(g0, a);
    if e.src in g.lists && e.dst in g.lists && e.src != e.dst {
      AddEdgesNeighbours(g0, a, e.src, e.dst);
      AddEdgesNeighbours(g0, a, e.dst, e.src);
      var e' :| e' in a && Joins(e', e.src, e.dst);
      assert Joins(e', e.dst, e.src);
    }
    assert AddEdge(g, e) == g;
    assert (a + [e])[..|a + [e]| - 1] == a;
    AddEdgesAppend(g0, a + [e], b);
    AddEdgesAppend(g0, a, b);
  }

  /** One edge given as `(u, v)` or as `(v, u)` has the same effect. */
  lemma ReversedEdgeStep(g: Adj, u: Vertex, v: Vertex)
    ensures AddEdge(g, Edge(u, v)) == AddEdge(g, Edge(v, u))
  {
  }

  /** Giving an edge reversed, anywhere in the edge list, builds the same dictionary. */
  lemma ReversedEdge(nodes: seq<Vertex>, a: seq<Edge>, u: Vertex, v: Vertex, b: seq<Edge>)
    ensures Adjacency(nodes, a + [Edge(u, v)] + b) == Adjacency(nodes, a + [Edge(v, u)] + b)
  {
    var g0 := Empty(nodes);
    ReversedEdgeStep(AddEdges(g0, a), u, v);
    assert (a + [Edge(u, v)])[..|a|] == a;
    assert (a + [Edge(v, u)])[..|a|] == a;
    AddEdgesAppend(g0, a + [Edge(u, v)], b);
    AddEdgesAppend(g0, a + [Edge(v, u)], b);
  }
}
