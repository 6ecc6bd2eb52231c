/**
 * The Constraint Checker (`compatible`) and what a k-colouring is.
 * A colour assignment is a map from vertex to colour id.
 */
module Coloring {
  import opened Graph

  /** `colors.get(v, -1)`: an uncoloured vertex reads as colour -1. */
  function Get(m: map<Vertex, int>, v: Vertex): int
  {
    if v in m then m[v] else -1
  }

  /** The loop of `compatible`: walk the neighbours and stop at the first one holding colour `c`. */
  function NoClash(vs: seq<Vertex>, c: int, m: map<Vertex, int>): (r: bool)
    ensures r <==> forall v :: v in vs ==> Get(m, v) != c
  {
    if vs == [] then true
    else if Get(m, vs[0]) == c then false
    else
      assert forall v :: v in vs ==> v == vs[0] || v in vs[1..];
      NoClash(vs[1..], c, m)
  }

  /**
   * `compatible(u, c, colors, adj)`: false exactly when some neighbour of
   * `u` is coloured `c`. For a real colour (`c >= 0`) an uncoloured neighbour
   * never clashes.
   */
  function Compatible(u: Vertex, c: int, m: map<Vertex, int>, g: Adj): (r: bool)
    requires u in g.lists
    ensures 0 <= c ==> (!r <==> exists v :: v in g.lists[u] && v in m && m[v] == c)
  {
    NoClash(g.lists[u], c, m)
  }

  /** Every coloured vertex holds a colour in `[0, k)`. */
  predicate InRange(k: int, m: map<Vertex, int>)
  {
    forall u | u in m :: 0 <= m[u] < k
  }

  /** No two coloured neighbours share a colour. */
  predicate Proper(g: Adj, m: map<Vertex, int>)
  {
    forall u, v | u in m && u in g.lists && v in g.lists[u] && v in m :: m[u] != m[v]
  }

  /** `f` is a k-colouring of `g`: every vertex coloured, from `[0, k)`, neighbours apart. */
  predicate IsColoring(g: Adj, k: int, f: map<Vertex, int>)
  {
    && (forall u | u in f :: u in g.lists)
    && (forall u | u in g.lists :: u in f)
    && InRange(k, f)
    && Proper(g, f)
  }

  ghost predicate Colorable(g: Adj, k: int)
  {
    exists f :: IsColoring(g, k, f)
  }

  /** `f` agrees with the partial assignment `m` wherever `m` colours. */
  predicate Extends(f: map<Vertex, int>, m: map<Vertex, int>)
  {
    forall u | u in m :: u in f && f[u] == m[u]
  }

  /** Colouring `u` with a colour no neighbour holds keeps a proper assignment proper. */
  lemma CompatibleKeepsProper(g: Adj, u: Vertex, c: int, m: map<Vertex, int>)
    requires WellFormed(g) && u in g.lists && 0 <= c
    requires Proper(g, m) && Compatible(u, c, m, g)
    ensures Proper(g, m[u := c])
  {
    var m1 := m[u := c];
    forall x, y | x in m1 && x in g.lists && y in g.lists[x] && y in m1
      ensures m1[x] != m1[y]
    {
      if x == u {
        assert y != u;
      } else if y == u {
        assert x in g.lists[u];
      }
    }
  }
}
