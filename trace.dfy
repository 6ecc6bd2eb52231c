/**
 * The shape of the step trace that `backtrack` records: every `try` is
 * answered at once by an `assign` or a `conflict` for the same vertex and
 * colour, every snapshot agrees with the step it belongs to, the colours
 * tried for a vertex are 0, 1, 2, ... in order, and a successful search ends
 * with exactly one `done` step holding the final colouring.
 */
module Trace {
  import opened Wrappers
  import opened Graph
  import opened Ordering
  import opened Coloring
  import opened Search

  /** `next` answers the `try` step `t`: an assignment or a conflict for the same vertex and colour. */
  predicate Answers(t: Step, next: Step)
  {
    && (next.action == Assign || next.action == Conflict)
    && next.node == t.node
    && next.color == t.color
  }

  /**
   * A step agrees with its snapshot: `try` and `conflict` are recorded while
   * the vertex is uncoloured, `assign` and `backtrack` while it holds the
   * step's colour, and `done` carries no vertex and no colour. Every colour
   * named is one of the k colours.
   */
  predicate Consistent(k: int, st: Step)
  {
    match st.action
    case Done => st.node == "" && st.color == None
    case Try => st.color.Some? && 0 <= st.color.value < k && st.node !in st.partial
    case Conflict => st.color.Some? && 0 <= st.color.value < k && st.node !in st.partial
    case Assign => st.color.Some? && 0 <= st.color.value < k && st.node in st.partial && st.partial[st.node] == st.color.value
    case Backtrack => st.color.Some? && 0 <= st.color.value < k && st.node in st.partial && st.partial[st.node] == st.color.value
  }

  /** Every step is consistent and every `try` is directly followed by its answer. */
  predicate WellTraced(k: int, s: seq<Step>)
  {
    if s == [] then true
    else
      && Consistent(k, s[0])
      && (s[0].action == Try ==> |s| >= 2 && Answers(s[0], s[1]))
      && WellTraced(k, s[1..])
  }

  predicate NoDone(s: seq<Step>)
  {
    forall j :: 0 <= j < |s| ==> s[j].action != Done
  }

  /** Every step other than `done` concerns a vertex of `vs`. */
  predicate NodesIn(s: seq<Step>, vs: seq<Vertex>)
  {
    forall j :: 0 <= j < |s| ==> s[j].action == Done || s[j].node in vs
  }

  /** A successful search ends with one `done` step holding its colouring; a failed one records none. */
  predicate DoneShape(r: Outcome)
  {
    && (r.ok ==> |r.steps| > 0 && r.steps[|r.steps| - 1] == Step(Done, "", None, r.colors) && NoDone(r.steps[..|r.steps| - 1]))
    && (!r.ok ==> NoDone(r.steps))
  }

  /** The colours of the `try` steps for vertex `u`, in trace order. */
  function Tries(s: seq<Step>, u: Vertex): seq<int>
  {
    if s == [] then []
    else (if s[0].action == Try && s[0].node == u && s[0].color.Some? then [s[0].color.value] else []) + Tries(s[1..], u)
  }

  /** The colours `lo, lo + 1, ..., hi - 1`. */
  function Upto(lo: int, hi: int): (r: seq<int>)
    ensures |r| == if lo < hi then hi - lo else 0
    ensures forall j :: 0 <= j < |r| ==> r[j] == lo + j
    decreases hi - lo
  {
    if lo >= hi then [] else [lo] + Upto(lo + 1, hi)
  }

  /** What every search from assignment `m` over the vertices `vs` records and returns. */
  predicate Shaped(k: int, vs: seq<Vertex>, m: map<Vertex, int>, r: Outcome)
  {
    && WellTraced(k, r.steps)
    && NodesIn(r.steps, vs)
    && DoneShape(r)
    && (r.ok ==> Extends(r.colors, m))
  }

  /**
   * The colours tried for `u` from colour `c` on: up to the colour `u` keeps
   * when the search succeeds, up to the last colour when it fails.
   */
  predicate TriedFrom(k: int, u: Vertex, c: int, r: Outcome)
  {
    && (r.ok ==> u in r.colors && c <= r.colors[u] && Tries(r.steps, u) == Upto(c, r.colors[u] + 1))
    && (!r.ok ==> Tries(r.steps, u) == Upto(c, Width(k)))
  }

  // ---------------------------------------------------------------------
  // The shape of concatenated traces
  // ---------------------------------------------------------------------

  lemma {:induction false} WellTracedAppend(k: int, a: seq<Step>, b: seq<Step>)
    requires WellTraced(k, a) && WellTraced(k, b)
    ensures WellTraced(k, a + b)
  {
    if a == [] {
      assert a + b == b;
    } else {
      assert (a + b)[0] == a[0];
      assert (a + b)[1..] == a[1..] + b;
      if a[0].action == Try {
        assert (a + b)[1] == a[1];
      }
      WellTracedAppend(k, a[1..], b);
    }
  }

  /** Read at one position, `WellTraced` says the step is consistent and a `try` there is answered by the next step. */
  lemma {:induction false} WellTracedAt(k: int, s: seq<Step>, j: nat)
    requires WellTraced(k, s) && j < |s|
    ensures Consistent(k, s[j])
    ensures s[j].action == Try ==> j + 1 < |s| && Answers(s[j], s[j + 1])
  {
    if j > 0 {
      WellTracedAt(k, s[1..], j - 1);
    }
  }

  lemma {:induction false} TriesAppend(a: seq<Step>, b: seq<Step>, u: Vertex)
    ensures Tries(a + b, u) == Tries(a, u) + Tries(b, u)
  {
    if a == [] {
      assert a + b == b;
    } else {
      assert (a + b)[1..] == a[1..] + b;
      TriesAppend(a[1..], b, u);
      ConcatAssoc(Tries([a[0]], u), Tries(a[1..], u), Tries(b, u));
    }
  }

  /** A trace whose vertices all lie outside `u` tries no colour for `u`. */
  lemma {:induction false} TriesAbsent(s: seq<Step>, u: Vertex, vs: seq<Vertex>)
    requires NodesIn(s, vs) && u !in vs
    ensures Tries(s, u) == []
  {
    if s != [] {
      assert s[0].action == Done || s[0].node in vs;
      assert NodesIn(s[1..], vs) by {
        forall j | 0 <= j < |s[1..]|
          ensures s[1..][j].action == Done || s[1..][j].node in vs
        {
          assert s[1..][j] == s[j + 1];
        }
      }
      TriesAbsent(s[1..], u, vs);
    }
  }

  lemma ShapedAppend(k: int, vs: seq<Vertex>, m: map<Vertex, int>, a: Outcome, rest: Outcome)
    requires !a.ok && Shaped(k, vs, m, a) && Shaped(k, vs, m, rest)
    ensures Shaped(k, vs, m, Outcome(rest.ok, rest.colors, a.steps + rest.steps))
  {
    var s := a.steps + rest.steps;
    WellTracedAppend(k, a.steps, rest.steps);
    forall j | 0 <= j < |s|
      ensures s[j].action == Done || s[j].node in vs
    {
      if j < |a.steps| {
        assert s[j] == a.steps[j];
      } else {
        assert s[j] == rest.steps[j - |a.steps|];
      }
    }
    if rest.ok {
      var n := |rest.steps| - 1;
      assert s[|s| - 1] == rest.steps[n];
      assert s[..|s| - 1] == a.steps + rest.steps[..n];
    }
    forall j | 0 <= j < |s| && (rest.ok ==> j < |s| - 1)
      ensures s[j].action != Done
    {
      if j < |a.steps| {
        assert s[j] == a.steps[j];
      } else {
        assert s[j] == rest.steps[j - |a.steps|];
      }
    }
  }

  // ---------------------------------------------------------------------
  // The trace of one search
  // ---------------------------------------------------------------------

  /** The steps of one call of `backtrack(i)` entered with assignment `m`. */
  lemma {:induction false} ExploreTrace(g: Adj, nodes: seq<Vertex>, k: int, i: nat, m: map<Vertex, int>)
    requires i <= |nodes| && Known(g, nodes) && NoDup(nodes) && ColorsPrefix(nodes, i, m)
    ensures var r := Explore(g, nodes, k, i, m);
      && Shaped(k, nodes[i..], m, r)
      && (i < |nodes| ==> TriedFrom(k, nodes[i], 0, r))
    decreases |nodes| - i, Width(k) + 1, 0
  {
    if i == |nodes| {
      var r := Explore(g, nodes, k, i, m);
      assert r.steps[..|r.steps| - 1] == [];
    } else {
      TryColorsTrace(g, nodes, k, i, m, 0);
    }
  }

  /** The colour loop for vertex `u` from colour `c` on: a shaped trace that tries the colours from `c` in order. */
  predicate LoopTrace(k: int, vs: seq<Vertex>, m: map<Vertex, int>, u: Vertex, c: int, r: Outcome)
  {
    Shaped(k, vs, m, r) && TriedFrom(k, u, c, r)
  }

  /** One pass for vertex `u` and colour `c`: a shaped trace with exactly one `try`, for `c`, which `u` keeps on success. */
  predicate PassTrace(k: int, vs: seq<Vertex>, m: map<Vertex, int>, u: Vertex, c: int, a: Outcome)
  {
    && Shaped(k, vs, m, a)
    && Tries(a.steps, u) == [c]
    && (a.ok ==> u in a.colors && a.colors[u] == c)
  }

  /** The steps of the colour loop of `backtrack(i)` from colour `c`. */
  lemma {:induction false} TryColorsTrace(g: Adj, nodes: seq<Vertex>, k: int, i: nat, m: map<Vertex, int>, c: nat)
    requires i < |nodes| && Known(g, nodes) && NoDup(nodes) && ColorsPrefix(nodes, i, m)
    ensures LoopTrace(k, nodes[i..], m, nodes[i], c, TryColors(g, nodes, k, i, m, c))
    decreases |nodes| - i, Width(k) - c, 1
  {
    if c < k {
      var a := Attempt(g, nodes, k, i, m, c);
      AttemptTrace(g, nodes, k, i, m, c);
      if a.ok {
        PassEndsLoop(k, nodes[i..], m, nodes[i], c, a);
      } else {
        AttemptRestores(g, nodes, k, i, m, c);
        TryColorsTrace(g, nodes, k, i, m, c + 1);
        PassThenLoop(k, nodes[i..], m, nodes[i], c, a, TryColors(g, nodes, k, i, m, c + 1));
      }
    }
  }

  lemma PassEndsLoop(k: int, vs: seq<Vertex>, m: map<Vertex, int>, u: Vertex, c: int, a: Outcome)
    requires a.ok && PassTrace(k, vs, m, u, c, a)
    ensures LoopTrace(k, vs, m, u, c, a)
  {
    assert Upto(c, c + 1) == [c];
  }

  /** A failed pass for colour `c` followed by the loop from `c + 1` is the loop from `c`. */
  lemma PassThenLoop(k: int, vs: seq<Vertex>, m: map<Vertex, int>, u: Vertex, c: int, a: Outcome, rest: Outcome)
    requires c < k && !a.ok && PassTrace(k, vs, m, u, c, a) && LoopTrace(k, vs, m, u, c + 1, rest)
    ensures LoopTrace(k, vs, m, u, c, Outcome(rest.ok, rest.colors, a.steps + rest.steps))
  {
    ShapedAppend(k, vs, m, a, rest);
    TriesAppend(a.steps, rest.steps, u);
  }

  /** The steps of one pass of the colour loop of `backtrack(i)`, for colour `c`: exactly one `try`, for colour `c`. */
  lemma {:induction false} AttemptTrace(g: Adj, nodes: seq<Vertex>, k: int, i: nat, m: map<Vertex, int>, c: nat)
    requires i < |nodes| && Known(g, nodes) && NoDup(nodes) && ColorsPrefix(nodes, i, m) && c < k
    ensures PassTrace(k, nodes[i..], m, nodes[i], c, Attempt(g, nodes, k, i, m, c))
    decreases |nodes| - i, Width(k) - c, 0
  {
    var u := nodes[i];
    var a := Attempt(g, nodes, k, i, m, c);
    PrefixExtend(nodes, i, m, c);
    if Compatible(u, c, m, g) {
      var m1 := m[u := c];
      ExploreTrace(g, nodes, k, i + 1, m1);
      ExploreRestores(g, nodes, k, i + 1, m1);
      DescendTrace(k, nodes, i, m, c, Explore(g, nodes, k, i + 1, m1), a);
    } else {
      assert u in nodes[i..];
      ConflictTrace(k, nodes[i..], m, u, c, a);
    }
  }

  /** The steps of a pass whose colour `c` clashes: `try` and `conflict`, with the assignment untouched. */
  lemma ConflictTrace(k: int, vs: seq<Vertex>, m: map<Vertex, int>, u: Vertex, c: nat, a: Outcome)
    requires c < k && u !in m && u in vs
    requires a == Outcome(false, m, [Step(Try, u, Some(c), m), Step(Conflict, u, Some(c), m)])
    ensures PassTrace(k, vs, m, u, c, a)
  {
    assert a.steps[1..][1..] == [];
    assert Tries(a.steps[1..], u) == [] + Tries([], u);
  }

  /**
   * The steps of a pass whose colour `c` is compatible: `try`, `assign`, the
   * deeper search's steps `sub`, and on failure `backtrack`.
   */
  lemma DescendTrace(k: int, nodes: seq<Vertex>, i: nat, m: map<Vertex, int>, c: nat, sub: Outcome, a: Outcome)
    requires i < |nodes| && NoDup(nodes) && c < k && nodes[i] !in m
    requires Shaped(k, nodes[i + 1..], m[nodes[i] := c], sub)
    requires !sub.ok ==> sub.colors == m[nodes[i] := c]
    requires var u := nodes[i];
      var head := [Step(Try, u, Some(c), m), Step(Assign, u, Some(c), m[u := c])];
      a == if sub.ok then Outcome(true, sub.colors, head + sub.steps)
           else Outcome(false, sub.colors - {u}, head + sub.steps + [Step(Backtrack, u, Some(c), sub.colors)])
    ensures PassTrace(k, nodes[i..], m, nodes[i], c, a)
  {
    var u := nodes[i];
    var body := [Step(Try, u, Some(c), m), Step(Assign, u, Some(c), m[u := c])] + sub.steps;
    DescendBody(k, nodes, i, m, c, sub);
    if !sub.ok {
      var back := [Step(Backtrack, u, Some(c), sub.colors)];
      WellTracedAppend(k, body, back);
      TriesAppend(body, back, u);
      FailThenBack(nodes[i..], body, back);
    }
  }

  /** `try`, `assign` and the deeper search's steps, before any `backtrack`. */
  lemma DescendBody(k: int, nodes: seq<Vertex>, i: nat, m: map<Vertex, int>, c: nat, sub: Outcome)
    requires i < |nodes| && NoDup(nodes) && c < k && nodes[i] !in m
    requires Shaped(k, nodes[i + 1..], m[nodes[i] := c], sub)
    ensures var u := nodes[i];
      var body := [Step(Try, u, Some(c), m), Step(Assign, u, Some(c), m[u := c])] + sub.steps;
      && u in nodes[i..]
      && WellTraced(k, body)
      && Tries(body, u) == [c]
      && Shaped(k, nodes[i..], m, Outcome(sub.ok, sub.colors, body))
      && (sub.ok ==> u in sub.colors && sub.colors[u] == c)
  {
    var u := nodes[i];
    var head := [Step(Try, u, Some(c), m), Step(Assign, u, Some(c), m[u := c])];
    assert WellTraced(k, head) by {
      assert head[1..][1..] == [];
    }
    WellTracedAppend(k, head, sub.steps);
    NodesInDeeper(nodes, i, sub.steps);
    NotLater(nodes, i);
    TriesAbsent(sub.steps, u, nodes[i + 1..]);
    TriesAppend(head, sub.steps, u);
    assert Tries(head, u) == [c] by {
      assert head[1..][1..] == [];
    }
    assert u in nodes[i..];
    HeadThenShaped(nodes[i..], head, sub.steps, Outcome(sub.ok, sub.colors, head + sub.steps));
  }

  /** A later vertex is never `nodes[i]` again: the vertex order repeats nothing. */
  lemma NotLater(nodes: seq<Vertex>, i: nat)
    requires i < |nodes| && NoDup(nodes)
    ensures nodes[i] !in nodes[i + 1..]
  {
    var later := nodes[i + 1..];
    forall j | 0 <= j < |later|
      ensures later[j] != nodes[i]
    {
      assert later[j] == nodes[i + 1 + j];
    }
  }

  /** Vertices one level deeper are vertices of this level. */
  lemma NodesInDeeper(nodes: seq<Vertex>, i: nat, s: seq<Step>)
    requires i < |nodes| && NodesIn(s, nodes[i + 1..])
    ensures NodesIn(s, nodes[i..])
  {
    assert nodes[i..] == [nodes[i]] + nodes[i + 1..];
  }

  /** Two steps without `done` for vertex `nodes[i]`, then a deeper search's steps. */
  lemma HeadThenShaped(vs: seq<Vertex>, head: seq<Step>, sub: seq<Step>, r: Outcome)
    requires |head| == 2 && head[0].action != Done && head[1].action != Done
    requires head[0].node in vs && head[1].node in vs
    requires r.steps == head + sub && NodesIn(sub, vs)
    requires r.ok ==> |sub| > 0 && sub[|sub| - 1] == Step(Done, "", None, r.colors) && NoDone(sub[..|sub| - 1])
    requires !r.ok ==> NoDone(sub)
    ensures NodesIn(r.steps, vs)
    ensures DoneShape(r)
  {
    var s := r.steps;
    forall j | 0 <= j < |s|
      ensures s[j].action == Done || s[j].node in vs
    {
      if j >= 2 {
        assert s[j] == sub[j - 2];
      }
    }
    if r.ok {
      assert s[|s| - 1] == sub[|sub| - 1];
      assert s[..|s| - 1] == head + sub[..|sub| - 1];
    }
    forall j | 0 <= j < |s| && (r.ok ==> j < |s| - 1)
      ensures s[j].action != Done
    {
      if j >= 2 {
        assert s[j] == sub[j - 2];
      }
    }
  }

  /** A failed descent's steps followed by the `backtrack` step record no `done`. */
  lemma FailThenBack(vs: seq<Vertex>, s: seq<Step>, back: seq<Step>)
    requires |back| == 1 && back[0].action == Backtrack && back[0].node in vs
    requires NodesIn(s, vs) && NoDone(s)
    ensures NodesIn(s + back, vs) && NoDone(s + back)
  {
  }

  /**
   * The trace `color_graph_backtracking` returns: well formed, about vertices
   * of the graph only, ending in exactly one `done` with the colouring on
   * success and holding no `done` on failure; the first vertex in search
   * order is tried with colours 0, 1, ... up to the colour it keeps, or
   * with all k colours when the search fails.
   */
  lemma ColorGraphTrace(g: Adj, k: int, order: string)
    ensures var r := ColorGraph(g, k, order);
      && WellTraced(k, r.steps)
      && DoneShape(r)
      && NodesIn(r.steps, g.keys)
      && (g.keys != [] ==> TriedFrom(k, OrderNodes(g, order)[0], 0, r))
  {
    var nodes := OrderNodes(g, order);
    OrderNodesSpec(g, order);
    ExploreTrace(g, nodes, k, 0, map[]);
    var o := Explore(g, nodes, k, 0, map[]);
    assert nodes[0..] == nodes;
    forall j | 0 <= j < |o.steps| && o.steps[j].action != Done
      ensures o.steps[j].node in g.keys
    {
      assert o.steps[j].node in nodes;
    }
  }
}
