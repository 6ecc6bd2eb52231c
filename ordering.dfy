/**
 * The Vertex Orderer (`order_nodes`): the order in which the search colours
 * the vertices. "degree" sorts the keys by descending number of neighbours,
 * keeping key order among equal degrees (a stable sort); any other strategy
 * keeps key order.
 */
module Ordering {
  import opened Graph

  /**
   * `len(adj[u])`. The sort only ever asks about keys of `g`; the second
   * branch makes the function total and is never taken there.
   */
  function Degree(g: Adj, u: Vertex): nat
  {
    if u in g.lists then |g.lists[u]| else 0
  }

  /** Neighbour counts never increase along `s`. */
  predicate NonIncreasing(g: Adj, s: seq<Vertex>)
  {
    forall a, b :: 0 <= a < b < |s| ==> Degree(g, s[a]) >= Degree(g, s[b])
  }

  /** The vertices of `s` whose degree is `d`, in the order of `s`. */
  function WithDegree(g: Adj, s: seq<Vertex>, d: nat): (r: seq<Vertex>)
  {
    if s == [] then []
    else (if Degree(g, s[0]) == d then [s[0]] else []) + WithDegree(g, s[1..], d)
  }

  /**
   * Insert `x` into a list sorted by descending degree, after every element
   * of degree at least its own.
   */
  function Insert(g: Adj, x: Vertex, s: seq<Vertex>): (r: seq<Vertex>)
    ensures multiset(r) == multiset(s) + multiset{x}
  {
    if s == [] then [x]
    else if Degree(g, s[0]) >= Degree(g, x) then
      assert s == [s[0]] + s[1..];
      [s[0]] + Insert(g, x, s[1..])
    else [x] + s
  }

  /** A vertex placed before a sorted list keeps it sorted when no element outranks it. */
  lemma ConsSorted(g: Adj, h: Vertex, t: seq<Vertex>)
    requires NonIncreasing(g, t)
    requires forall y :: y in t ==> Degree(g, y) <= Degree(g, h)
    ensures NonIncreasing(g, [h] + t)
  {
    var s := [h] + t;
    forall a, b | 0 <= a < b < |s|
      ensures Degree(g, s[a]) >= Degree(g, s[b])
    {
      if a == 0 {
        assert s[b] == t[b - 1];
      } else {
        assert s[a] == t[a - 1] && s[b] == t[b - 1];
      }
    }
  }

  lemma TailSorted(g: Adj, s: seq<Vertex>)
    requires s != [] && NonIncreasing(g, s)
    ensures NonIncreasing(g, s[1..])
  {
    forall a, b | 0 <= a < b < |s[1..]|
      ensures Degree(g, s[1..][a]) >= Degree(g, s[1..][b])
    {
      assert s[1..][a] == s[a + 1] && s[1..][b] == s[b + 1];
    }
  }

  /** The vertices of `Insert(g, x, s)` are `x` and those of `s`. */
  lemma InsertMembers(g: Adj, x: Vertex, s: seq<Vertex>, y: Vertex)
    ensures y in Insert(g, x, s) <==> y == x || y in s
  {
    assert y in Insert(g, x, s) <==> y in multiset(Insert(g, x, s));
  }

  lemma {:induction false} InsertKeepsSorted(g: Adj, x: Vertex, s: seq<Vertex>)
    requires NonIncreasing(g, s)
    ensures NonIncreasing(g, Insert(g, x, s))
  {
    if s == [] {
    } else if Degree(g, s[0]) >= Degree(g, x) {
      var t := Insert(g, x, s[1..]);
      TailSorted(g, s);
      InsertKeepsSorted(g, x, s[1..]);
      forall y | y in t
        ensures Degree(g, y) <= Degree(g, s[0])
      {
        InsertMembers(g, x, s[1..], y);
        if y != x {
          var j :| 0 <= j < |s[1..]| && s[1..][j] == y;
          assert s[j + 1] == y;
        }
      }
      ConsSorted(g, s[0], t);
    } else {
      forall y | y in s
        ensures Degree(g, y) <= Degree(g, x)
      {
        var j :| 0 <= j < |s| && s[j] == y;
        assert Degree(g, s[j]) <= Degree(g, s[0]);
      }
      ConsSorted(g, x, s);
    }
  }

  lemma {:induction false} InsertKeepsNoDup(g: Adj, x: Vertex, s: seq<Vertex>)
    requires NoDup(s) && x !in s
    ensures NoDup(Insert(g, x, s))
  {
    if s == [] {
    } else if Degree(g, s[0]) >= Degree(g, x) {
      var t := Insert(g, x, s[1..]);
      TailNoDup(s);
      InsertKeepsNoDup(g, x, s[1..]);
      InsertMembers(g, x, s[1..], s[0]);
      ConsNoDup(s[0], t);
    } else {
      ConsNoDup(x, s);
    }
  }

  lemma TailNoDup<T>(s: seq<T>)
    requires s != [] && NoDup(s)
    ensures NoDup(s[1..]) && s[0] !in s[1..]
  {
    forall a, b | 0 <= a < b < |s[1..]|
      ensures s[1..][a] != s[1..][b]
    {
      assert s[1..][a] == s[a + 1] && s[1..][b] == s[b + 1];
    }
  }

  lemma ConsNoDup<T>(h: T, t: seq<T>)
    requires NoDup(t) && h !in t
    ensures NoDup([h] + t)
  {
    var s := [h] + t;
    forall a, b | 0 <= a < b < |s|
      ensures s[a] != s[b]
    {
      assert s[b] == t[b - 1];
      if a > 0 {
        assert s[a] == t[a - 1];
      }
    }
  }

  /** `sorted(keys, key=degree, reverse=True)`, built as an insertion sort that inserts the keys in order. */
  function SortByDegree(g: Adj, s: seq<Vertex>): (r: seq<Vertex>)
    ensures multiset(r) == multiset(s)
  {
    if s == [] then []
    else
      var p := s[..|s| - 1];
      assert s == p + [s[|s| - 1]];
      Insert(g, s[|s| - 1], SortByDegree(g, p))
  }

  /** The sort returns its input sorted by descending degree, repeating nothing that was not repeated. */
  lemma {:induction false} SortByDegreeSorted(g: Adj, s: seq<Vertex>)
    ensures NonIncreasing(g, SortByDegree(g, s))
    ensures NoDup(s) ==> NoDup(SortByDegree(g, s))
  {
    if s != [] {
      var p := s[..|s| - 1];
      var x := s[|s| - 1];
      SortByDegreeSorted(g, p);
      InsertKeepsSorted(g, x, SortByDegree(g, p));
      if NoDup(s) {
        assert x !in multiset(SortByDegree(g, p));
        InsertKeepsNoDup(g, x, SortByDegree(g, p));
      }
    }
  }

  /** `order_nodes(adj, order)`. */
  function OrderNodes(g: Adj, order: string): (r: seq<Vertex>)
  {
    if order == "degree" then SortByDegree(g, g.keys) else g.keys
  }

  // ---------------------------------------------------------------------
  // Stability
  // ---------------------------------------------------------------------

  lemma {:induction false} WithDegreeAppend(g: Adj, a: seq<Vertex>, b: seq<Vertex>, d: nat)
    ensures WithDegree(g, a + b, d) == WithDegree(g, a, d) + WithDegree(g, b, d)
  {
    if a == [] {
      assert a + b == b;
    } else {
      assert (a + b)[1..] == a[1..] + b;
      WithDegreeAppend(g, a[1..], b, d);
    }
  }

  /** A sorted list holds no vertex of degree above its first element's. */
  lemma {:induction false} WithDegreeAboveHead(g: Adj, s: seq<Vertex>, d: nat)
    requires NonIncreasing(g, s)
    requires s != [] ==> Degree(g, s[0]) < d
    ensures WithDegree(g, s, d) == []
  {
    if s != [] {
      if |s| > 1 {
        assert s[1..][0] == s[1];
      }
      WithDegreeAboveHead(g, s[1..], d);
    }
  }

  /** Inserting `x` into a sorted list puts it after every element of its own degree. */
  lemma {:induction false} InsertWithDegree(g: Adj, x: Vertex, s: seq<Vertex>, d: nat)
    requires NonIncreasing(g, s)
    ensures WithDegree(g, Insert(g, x, s), d)
         == WithDegree(g, s, d) + (if Degree(g, x) == d then [x] else [])
  {
    if s == [] {
      WithDegreeCons(g, x, [], d);
      assert [x] + [] == [x];
    } else if Degree(g, s[0]) >= Degree(g, x) {
      TailSorted(g, s);
      InsertWithDegree(g, x, s[1..], d);
      InsertPastHead(g, x, s, d);
    } else {
      if Degree(g, x) == d {
        WithDegreeAboveHead(g, s, d);
      }
      WithDegreeCons(g, x, s, d);
    }
  }

  /** One step of `InsertWithDegree`: passing the head of the list adds it in front on both sides. */
  lemma InsertPastHead(g: Adj, x: Vertex, s: seq<Vertex>, d: nat)
    requires s != [] && Degree(g, s[0]) >= Degree(g, x)
    requires WithDegree(g, Insert(g, x, s[1..]), d)
          == WithDegree(g, s[1..], d) + (if Degree(g, x) == d then [x] else [])
    ensures WithDegree(g, Insert(g, x, s), d)
         == WithDegree(g, s, d) + (if Degree(g, x) == d then [x] else [])
  {
    var e := if Degree(g, x) == d then [x] else [];
    var h := if Degree(g, s[0]) == d then [s[0]] else [];
    var t := Insert(g, x, s[1..]);
    assert Insert(g, x, s) == [s[0]] + t;
    WithDegreeCons(g, s[0], t, d);
    WithDegreeCons(g, s[0], s[1..], d);
    assert s == [s[0]] + s[1..];
    ConcatAssoc(h, WithDegree(g, s[1..], d), e);
  }

  lemma WithDegreeCons(g: Adj, h: Vertex, t: seq<Vertex>, d: nat)
    ensures WithDegree(g, [h] + t, d) == (if Degree(g, h) == d then [h] else []) + WithDegree(g, t, d)
  {
    assert ([h] + t)[1..] == t;
  }

  /** The sort is stable: for every degree, the vertices of that degree keep their input order. */
  lemma {:induction false} SortByDegreeStable(g: Adj, s: seq<Vertex>, d: nat)
    ensures WithDegree(g, SortByDegree(g, s), d) == WithDegree(g, s, d)
  {
    if s != [] {
      var p := s[..|s| - 1];
      var x := s[|s| - 1];
      var e := if Degree(g, x) == d then [x] else [];
      assert [x][1..] == [];
      assert WithDegree(g, [x], d) == e;
      calc {
        WithDegree(g, SortByDegree(g, s), d);
        WithDegree(g, Insert(g, x, SortByDegree(g, p)), d);
        { SortByDegreeSorted(g, p); InsertWithDegree(g, x, SortByDegree(g, p), d); }
        WithDegree(g, SortByDegree(g, p), d) + e;
        { SortByDegreeStable(g, p, d); }
        WithDegree(g, p, d) + WithDegree(g, [x], d);
        { WithDegreeAppend(g, p, [x], d); }
        WithDegree(g, p + [x], d);
        { assert s == p + [x]; }
        WithDegree(g, s, d);
      }
    }
  }

  /**
   * `order_nodes` returns a permutation of the keys. Under "degree" the
   * degrees never increase and equal-degree keys keep key order; under any
   * other strategy the keys come back unchanged.
   */
  lemma OrderNodesSpec(g: Adj, order: string)
    ensures var r := OrderNodes(g, order);
      && multiset(r) == multiset(g.keys)
      && NoDup(r)
      && (forall x :: x in r <==> x in g.lists)
      && (order == "degree" ==> NonIncreasing(g, r) && forall d: nat :: WithDegree(g, r, d) == WithDegree(g, g.keys, d))
      && (order != "degree" ==> r == g.keys)
  {
    if order == "degree" {
      SortByDegreeSorted(g, g.keys);
      forall x
        ensures x in OrderNodes(g, order) <==> x in g.keys
      {
        assert x in OrderNodes(g, order) <==> x in multiset(g.keys);
      }
      forall d: nat
        ensures WithDegree(g, OrderNodes(g, order), d) == WithDegree(g, g.keys, d)
      {
        SortByDegreeStable(g, g.keys, d);
      }
    }
  }

  /** When every vertex has the same degree (a cycle, say), "degree" order is key order. */
  lemma {:induction false} EqualDegreesKeepKeyOrder(g: Adj, d: nat)
    requires forall u :: u in g.lists ==> Degree(g, u) == d
    ensures OrderNodes(g, "degree") == g.keys
  {
    var r := SortByDegree(g, g.keys);
    SortByDegreeStable(g, g.keys, d);
    AllOfDegree(g, g.keys, d);
    forall u | u in r
      ensures Degree(g, u) == d
    {
      assert u in multiset(g.keys);
    }
    AllOfDegree(g, r, d);
  }

  lemma {:induction false} AllOfDegree(g: Adj, s: seq<Vertex>, d: nat)
    requires forall u :: u in s ==> Degree(g, u) == d
    ensures WithDegree(g, s, d) == s
  {
    if s != [] {
      AllOfDegree(g, s[1..], d);
      assert s == [s[0]] + s[1..];
    }
  }
}
