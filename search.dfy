/**
 * The Search Engine and Step Recorder (`color_graph_backtracking` and its
 * inner `backtrack`). A depth-first search colours the ordered vertices one
 * at a time, trying colours 0 to k-1, keeps one shared partial assignment
 * (assigning on the way down, deleting on the way back) and records a
 * snapshot step for every decision.
 *
 * `Explore` and `TryColors` state, as functions, what one call of
 * `backtrack(i)` and what the rest of its colour loop from colour `c` do to
 * the assignment and the trace. `Searcher.Backtrack` is the recursive
 * procedure itself, over a mutable assignment and an appended trace, and is
 * proved to do exactly that.
 */
module Search {
  import opened Wrappers
  import opened Graph
  import opened Ordering
  import opened Coloring

  datatype Action = Try | Assign | Conflict | Backtrack | Done

  /** One trace entry. `partial` is a copy of the assignment when the step was recorded. */
  datatype Step = Step(action: Action, node: Vertex, color: Option<int>, partial: map<Vertex, int>)

  /** What a search returns: success, the assignment it ends with, and the steps it recorded. */
  datatype Outcome = Outcome(ok: bool, colors: map<Vertex, int>, steps: seq<Step>)

  /** The number of colours `range(k)` yields. */
  function Width(k: int): nat
  {
    if k < 0 then 0 else k
  }

  /** `backtrack(i)` entered with assignment `m`. */
  function Explore(g: Adj, nodes: seq<Vertex>, k: int, i: nat, m: map<Vertex, int>): Outcome
    requires i <= |nodes| && Known(g, nodes)
    decreases |nodes| - i, Width(k) + 1, 0
  {
    if i == |nodes| then Outcome(true, m, [Step(Done, "", None, m)])
    else TryColors(g, nodes, k, i, m, 0)
  }

  /** The colour loop of `backtrack(i)` from colour `c` on, entered with assignment `m`. */
  function TryColors(g: Adj, nodes: seq<Vertex>, k: int, i: nat, m: map<Vertex, int>, c: nat): Outcome
    requires i < |nodes| && Known(g, nodes)
    decreases |nodes| - i, Width(k) - c, 1
  {
    if c >= k then Outcome(false, m, [])
    else
      var a := Attempt(g, nodes, k, i, m, c);
      if a.ok then a
      else
        var rest := TryColors(g, nodes, k, i, a.colors, c + 1);
        Outcome(rest.ok, rest.colors, a.steps + rest.steps)
  }

  /**
   * One pass of the colour loop of `backtrack(i)`, for colour `c`: record
   * `try`; on a clash record `conflict`; otherwise assign, record `assign`
   * and descend, and when the descent fails record `backtrack` (the
   * assignment still holding the colour) and delete the vertex's colour.
   * The result holds the assignment after the pass.
   */
  function Attempt(g: Adj, nodes: seq<Vertex>, k: int, i: nat, m: map<Vertex, int>, c: nat): Outcome
    requires i < |nodes| && Known(g, nodes)
    decreases |nodes| - i, Width(k) - c, 0
  {
    var u := nodes[i];
    var tried := Step(Try, u, Some(c), m);
    if Compatible(u, c, m, g) then
      var m1 := m[u := c];
      var sub := Explore(g, nodes, k, i + 1, m1);
      var steps := [tried, Step(Assign, u, Some(c), m1)] + sub.steps;
      if sub.ok then Outcome(true, sub.colors, steps)
      else Outcome(false, sub.colors - {u}, steps + [Step(Backtrack, u, Some(c), sub.colors)])
    else Outcome(false, m, [tried, Step(Conflict, u, Some(c), m)])
  }

  /** The assignment colours exactly the first `i` ordered vertices. */
  predicate ColorsPrefix(nodes: seq<Vertex>, i: nat, m: map<Vertex, int>)
    requires i <= |nodes|
  {
    (forall x | x in m :: x in nodes[..i]) && (forall x | x in nodes[..i] :: x in m)
  }

  /** `color_graph_backtracking(adj, k, order)`: order the keys, search from the first vertex, empty the colours on failure. */
  function ColorGraph(g: Adj, k: int, order: string): Outcome
  {
    var nodes := OrderNodes(g, order);
    OrderNodesSpec(g, order);
    var o := Explore(g, nodes, k, 0, map[]);
    Outcome(o.ok, if o.ok then o.colors else map[], o.steps)
  }

  /** The closure state of `color_graph_backtracking`: the graph, the vertex order, k, and the shared `colors` and `steps`. */
  class Searcher {
    const g: Adj
    const nodes: seq<Vertex>
    const k: int
    var colors: map<Vertex, int>
    var steps: seq<Step>

    constructor (g: Adj, nodes: seq<Vertex>, k: int)
      ensures this.g == g && this.nodes == nodes && this.k == k
      ensures colors == map[] && steps == []
    {
      this.g := g;
      this.nodes := nodes;
      this.k := k;
      colors := map[];
      steps := [];
    }

    /**
     * `backtrack(i)`. On entry the assignment colours exactly the first `i`
     * vertices; on failure it is left as it was found.
     */
    method Backtrack(i: nat) returns (found: bool)
      requires i <= |nodes| && Known(g, nodes) && NoDup(nodes)
      requires ColorsPrefix(nodes, i, colors)
      modifies this
      ensures var r := Explore(g, nodes, k, i, old(colors));
        found == r.ok && colors == r.colors && steps == old(steps) + r.steps
      ensures !found ==> colors == old(colors)
      decreases |nodes| - i, 1
    {
      if i == |nodes| {
        steps := steps + [Step(Done, "", None, colors)];
        return true;
      }
      ghost var m0 := colors;
      ghost var r0 := TryColors(g, nodes, k, i, m0, 0);
      ghost var done: seq<Step> := [];
      var c := 0;
      while c < k
        invariant 0 <= c && (c <= k || k < 0)
        invariant colors == m0
        invariant steps == old(steps) + done
        invariant var r := TryColors(g, nodes, k, i, m0, c);
          r0 == Outcome(r.ok, r.colors, done + r.steps)
        decreases k - c
      {
        ghost var a := Attempt(g, nodes, k, i, m0, c);
        ghost var next := TryColors(g, nodes, k, i, m0, c + 1);
        found := TryColor(i, c);
        if found {
          ConcatAssoc(old(steps), done, a.steps);
          return;
        }
        AttemptRestores(g, nodes, k, i, m0, c);
        ConcatAssoc(done, a.steps, next.steps);
        done := done + a.steps;
        c := c + 1;
      }
      found := false;
    }

    /** One pass of the colour loop of `backtrack(i)`, for colour `c`. */
    method TryColor(i: nat, c: nat) returns (found: bool)
      requires i < |nodes| && Known(g, nodes) && NoDup(nodes)
      requires ColorsPrefix(nodes, i, colors)
      modifies this
      ensures var a := Attempt(g, nodes, k, i, old(colors), c);
        found == a.ok && colors == a.colors && steps == old(steps) + a.steps
      decreases |nodes| - i, 0
    {
      var u := nodes[i];
      steps := steps + [Step(Try, u, Some(c), colors)];
      if Compatible(u, c, colors, g) {
        PrefixExtend(nodes, i, colors, c);
        colors := colors[u := c];
        steps := steps + [Step(Assign, u, Some(c), colors)];
        found := Backtrack(i + 1);
        if found {
          return;
        }
        steps := steps + [Step(Action.Backtrack, u, Some(c), colors)];
        colors := colors - {u};
      } else {
        steps := steps + [Step(Conflict, u, Some(c), colors)];
        found := false;
      }
    }
  }

  /** `color_graph_backtracking(adj, k, order)` over a fresh searcher. */
  method ColorGraphBacktracking(g: Adj, k: int, order: string) returns (ok: bool, colors: map<Vertex, int>, steps: seq<Step>)
    ensures Outcome(ok, colors, steps) == ColorGraph(g, k, order)
    ensures !ok ==> colors == map[]
    ensures WellFormed(g) ==> (ok <==> Colorable(g, k))
    ensures WellFormed(g) && ok ==> IsColoring(g, k, colors)
  {
    var nodes := OrderNodes(g, order);
    OrderNodesSpec(g, order);
    var s := new Searcher(g, nodes, k);
    ok := s.Backtrack(0);
    colors := if ok then s.colors else map[];
    steps := s.steps;
    if WellFormed(g) {
      ColorGraphCorrect(g, k, order);
    }
  }

  // ---------------------------------------------------------------------
  // The assignment on entry and on failure
  // ---------------------------------------------------------------------

  lemma NotInPrefix(nodes: seq<Vertex>, i: nat)
    requires i < |nodes| && NoDup(nodes)
    ensures nodes[i] !in nodes[..i]
  {
  }

  /** Colouring the next vertex extends a prefix assignment by one. */
  lemma PrefixExtend(nodes: seq<Vertex>, i: nat, m: map<Vertex, int>, c: int)
    requires i < |nodes| && NoDup(nodes) && ColorsPrefix(nodes, i, m)
    ensures nodes[i] !in m
    ensures ColorsPrefix(nodes, i + 1, m[nodes[i] := c])
    ensures m[nodes[i] := c] - {nodes[i]} == m
  {
    NotInPrefix(nodes, i);
    assert nodes[..i + 1] == nodes[..i] + [nodes[i]];
  }

  /** When `backtrack(i)` fails, the `del` on the way back has left the assignment as it was on entry. */
  lemma {:induction false} ExploreRestores(g: Adj, nodes: seq<Vertex>, k: int, i: nat, m: map<Vertex, int>)
    requires i <= |nodes| && Known(g, nodes) && NoDup(nodes) && ColorsPrefix(nodes, i, m)
    ensures var r := Explore(g, nodes, k, i, m); !r.ok ==> r.colors == m
    decreases |nodes| - i, Width(k) + 1, 0
  {
    if i < |nodes| {
      TryColorsRestores(g, nodes, k, i, m, 0);
    }
  }

  lemma {:induction false} TryColorsRestores(g: Adj, nodes: seq<Vertex>, k: int, i: nat, m: map<Vertex, int>, c: nat)
    requires i < |nodes| && Known(g, nodes) && NoDup(nodes) && ColorsPrefix(nodes, i, m)
    ensures var r := TryColors(g, nodes, k, i, m, c); !r.ok ==> r.colors == m
    decreases |nodes| - i, Width(k) - c, 1
  {
    if c < k {
      AttemptRestores(g, nodes, k, i, m, c);
      TryColorsRestores(g, nodes, k, i, m, c + 1);
    }
  }

  /** A pass of the colour loop that does not succeed leaves the assignment as it found it. */
  lemma {:induction false} AttemptRestores(g: Adj, nodes: seq<Vertex>, k: int, i: nat, m: map<Vertex, int>, c: nat)
    requires i < |nodes| && Known(g, nodes) && NoDup(nodes) && ColorsPrefix(nodes, i, m)
    ensures var a := Attempt(g, nodes, k, i, m, c); !a.ok ==> a.colors == m
    decreases |nodes| - i, Width(k) - c, 0
  {
    if Compatible(nodes[i], c, m, g) {
      PrefixExtend(nodes, i, m, c);
      ExploreRestores(g, nodes, k, i + 1, m[nodes[i] := c]);
    }
  }

  // ---------------------------------------------------------------------
  // Soundness, completeness and first fit
  // ---------------------------------------------------------------------

  /** What holds on entry to `backtrack(i)` with assignment `m` in a search of a well-formed graph. */
  ghost predicate SearchState(g: Adj, nodes: seq<Vertex>, k: int, i: nat, m: map<Vertex, int>)
  {
    && WellFormed(g)
    && i <= |nodes|
    && NoDup(nodes)
    && Known(g, nodes)
    && (forall x | x in g.lists :: x in nodes)
    && ColorsPrefix(nodes, i, m)
    && InRange(k, m)
    && Proper(g, m)
  }

  /** Assigning a compatible colour to the next vertex gives a search state one level deeper. */
  lemma DescendState(g: Adj, nodes: seq<Vertex>, k: int, i: nat, m: map<Vertex, int>, c: nat)
    requires SearchState(g, nodes, k, i, m) && i < |nodes| && c < k
    requires Compatible(nodes[i], c, m, g)
    ensures SearchState(g, nodes, k, i + 1, m[nodes[i] := c])
  {
    CompatibleKeepsProper(g, nodes[i], c, m);
    PrefixExtend(nodes, i, m, c);
  }

  /** No k-colouring that extends `m` gives `u` a colour in `[lo, hi)`. */
  ghost predicate Excluded(g: Adj, k: int, m: map<Vertex, int>, u: Vertex, lo: int, hi: int)
  {
    forall f | IsColoring(g, k, f) && Extends(f, m) && u in f :: f[u] < lo || hi <= f[u]
  }

  /** A colour that clashes with a coloured neighbour is given to `u` by no extension. */
  lemma ClashExcluded(g: Adj, k: int, m: map<Vertex, int>, u: Vertex, c: nat)
    requires u in g.lists && !Compatible(u, c, m, g)
    ensures Excluded(g, k, m, u, c, c + 1)
  {
    var v :| v in g.lists[u] && v in m && m[v] == c;
    forall f | IsColoring(g, k, f) && Extends(f, m) && u in f
      ensures f[u] != c
    {
      assert f[v] == c;
    }
  }

  /** A colour whose descent found nothing is given to `u` by no extension. */
  lemma DeadEndExcluded(g: Adj, k: int, m: map<Vertex, int>, u: Vertex, c: nat)
    requires forall f :: IsColoring(g, k, f) ==> !Extends(f, m[u := c])
    ensures Excluded(g, k, m, u, c, c + 1)
  {
  }

  /**
   * One pass of the colour loop for colour `c`: success yields a k-colouring
   * that extends `m` and gives the vertex colour `c`; failure means no
   * extension of `m` gives the vertex colour `c`.
   */
  lemma {:induction false} AttemptCorrect(g: Adj, nodes: seq<Vertex>, k: int, i: nat, m: map<Vertex, int>, c: nat)
    requires SearchState(g, nodes, k, i, m) && i < |nodes| && c < k
    ensures var a := Attempt(g, nodes, k, i, m, c);
      && (a.ok ==> IsColoring(g, k, a.colors) && Extends(a.colors, m[nodes[i] := c]))
      && (!a.ok ==> Excluded(g, k, m, nodes[i], c, c + 1))
    decreases |nodes| - i, Width(k) - c, 0
  {
    var u := nodes[i];
    var a := Attempt(g, nodes, k, i, m, c);
    if Compatible(u, c, m, g) {
      var m1 := m[u := c];
      var sub := Explore(g, nodes, k, i + 1, m1);
      assert a.ok == sub.ok && (a.ok ==> a.colors == sub.colors);
      DescendState(g, nodes, k, i, m, c);
      ExploreCorrect(g, nodes, k, i + 1, m1);
      if !sub.ok {
        DeadEndExcluded(g, k, m, u, c);
      }
    } else {
      assert !a.ok;
      ClashExcluded(g, k, m, u, c);
    }
  }

  /**
   * What the colour loop from colour `c` guarantees for vertex `u` over the
   * entry assignment `m`: success yields a k-colouring extending `m` whose
   * colour for `u` is the least colour from `c` on that any extension gives
   * it; failure means no extension gives `u` a colour from `c` on.
   */
  ghost predicate FirstFit(g: Adj, k: int, m: map<Vertex, int>, u: Vertex, c: int, r: Outcome)
  {
    && (r.ok ==> IsColoring(g, k, r.colors) && Extends(r.colors, m) && u in r.colors)
    && (r.ok ==> c <= r.colors[u] && Excluded(g, k, m, u, c, r.colors[u]))
    && (!r.ok ==> Excluded(g, k, m, u, c, k))
  }

  /** The colour loop of `backtrack(i)` from colour `c` meets `FirstFit`. */
  lemma {:induction false} TryColorsCorrect(g: Adj, nodes: seq<Vertex>, k: int, i: nat, m: map<Vertex, int>, c: nat)
    requires SearchState(g, nodes, k, i, m) && i < |nodes|
    ensures FirstFit(g, k, m, nodes[i], c, TryColors(g, nodes, k, i, m, c))
    decreases |nodes| - i, Width(k) - c, 1
  {
    if c < k {
      var a := Attempt(g, nodes, k, i, m, c);
      AttemptCorrect(g, nodes, k, i, m, c);
      PrefixExtend(nodes, i, m, c);
      if a.ok {
        FirstColorFits(g, k, m, nodes[i], c, a);
      } else {
        AttemptRestores(g, nodes, k, i, m, c);
        TryColorsCorrect(g, nodes, k, i, m, c + 1);
        NextColor(g, k, m, nodes[i], c, TryColors(g, nodes, k, i, m, c + 1));
      }
    }
  }

  /** A pass that succeeds with colour `c` meets `FirstFit` from `c` on. */
  lemma FirstColorFits(g: Adj, k: int, m: map<Vertex, int>, u: Vertex, c: int, a: Outcome)
    requires u !in m && a.ok
    requires IsColoring(g, k, a.colors) && Extends(a.colors, m[u := c])
    ensures FirstFit(g, k, m, u, c, a)
  {
    assert a.colors[u] == c;
  }

  /** When colour `c` failed, what the loop guarantees from `c + 1` on extends down to `c`. */
  lemma NextColor(g: Adj, k: int, m: map<Vertex, int>, u: Vertex, c: int, rest: Outcome)
    requires c < k && Excluded(g, k, m, u, c, c + 1)
    requires FirstFit(g, k, m, u, c + 1, rest)
    ensures FirstFit(g, k, m, u, c, rest)
  {
    if rest.ok {
      ExcludedJoin(g, k, m, u, c, c + 1, rest.colors[u]);
    } else {
      ExcludedJoin(g, k, m, u, c, c + 1, k);
    }
  }

  lemma ExcludedJoin(g: Adj, k: int, m: map<Vertex, int>, u: Vertex, lo: int, mid: int, hi: int)
    requires lo <= mid <= hi
    requires Excluded(g, k, m, u, lo, mid) && Excluded(g, k, m, u, mid, hi)
    ensures Excluded(g, k, m, u, lo, hi)
  {
  }

  /**
   * `backtrack(i)` entered with assignment `m`: success yields a k-colouring
   * extending `m`, in which the vertex gets the least colour any extension
   * gives it; failure means no k-colouring extends `m`.
   */
  lemma {:induction false} ExploreCorrect(g: Adj, nodes: seq<Vertex>, k: int, i: nat, m: map<Vertex, int>)
    requires SearchState(g, nodes, k, i, m)
    ensures var r := Explore(g, nodes, k, i, m);
      && (r.ok ==> IsColoring(g, k, r.colors) && Extends(r.colors, m))
      && (r.ok && i < |nodes| ==> nodes[i] in r.colors && Excluded(g, k, m, nodes[i], 0, r.colors[nodes[i]]))
      && (!r.ok ==> forall f :: IsColoring(g, k, f) ==> !Extends(f, m))
    decreases |nodes| - i, Width(k) + 1, 0
  {
    if i == |nodes| {
      assert nodes[..i] == nodes;
    } else {
      TryColorsCorrect(g, nodes, k, i, m, 0);
      forall f | IsColoring(g, k, f) && Extends(f, m)
        ensures nodes[i] in f
      {
      }
    }
  }

  /**
   * `color_graph_backtracking` on a well-formed graph succeeds exactly when
   * a k-colouring exists, and then returns one; on failure it returns no
   * colours.
   */
  lemma ColorGraphCorrect(g: Adj, k: int, order: string)
    requires WellFormed(g)
    ensures var r := ColorGraph(g, k, order);
      && (r.ok <==> Colorable(g, k))
      && (r.ok ==> IsColoring(g, k, r.colors))
      && (!r.ok ==> r.colors == map[])
  {
    var nodes := OrderNodes(g, order);
    OrderNodesSpec(g, order);
    ExploreCorrect(g, nodes, k, 0, map[]);
    var r := ColorGraph(g, k, order);
  }
}
