# Backtracking k-colouring service — a verified model

The service takes a list of vertices, a list of undirected edges, a colour
count `k` and a vertex-ordering strategy. It answers with a proper
k-colouring or with the news that none exists, plus a trace of every step
of the search, which a front end animates. The core modelled here:

- **Graph builder** (`build_adj`, module `Graph`): builds an adjacency
  dictionary from the vertex and edge lists. It drops self-loops, edges with
  an unknown endpoint and repeated edges. A Python dictionary keeps its keys
  in insertion order, so the model keeps the keys as a sequence next to the
  lookup map (`AdjMap`, and the subset type `Adj` whose keys are distinct).
  `BuildAdj` is the loop itself, proved equal to `Adjacency`, the fold of
  one-edge updates `AddEdge` over the edges.
- **Vertex orderer** (`order_nodes`, module `Ordering`): "degree" sorts the
  keys by descending neighbour count, keeping key order among equal degrees
  (Python's `sorted` is stable). The model writes this as an insertion
  sort. Any other strategy keeps key order.
- **Constraint checker** (`compatible`, module `Coloring`): false exactly
  when some neighbour already holds the candidate colour. The module also
  defines what a proper k-colouring is (`IsColoring`, `Colorable`).
- **Search engine and step recorder** (`color_graph_backtracking` and its
  inner `backtrack`, module `Search`):
  - `Explore`, `TryColors` and `Attempt` are functions. They state what a
    call of `backtrack(i)`, the rest of its colour loop, and one pass of
    that loop return and record.
  - The class `Searcher` holds the shared `colors` map and the `steps` list
    as fields.
  - Its recursive method `Backtrack` and its loop-body method `TryColor`
    change those fields in place. Both are proved to do exactly what the
    functions say.
  - Soundness, completeness, first fit and restoration of the assignment
    are proved about the functions.
- **Trace shape** (module `Trace`):
  - Every `try` is answered at once by an `assign` or a `conflict` for the
    same vertex and colour.
  - Every snapshot agrees with its step.
  - Colours are tried in increasing order.
  - A successful search ends with exactly one `done` step, which holds the
    final colouring. A failed search records no `done` step.
- **Request handling** (`solve`, module `Server`): rejects `k` outside
  2..5, then an empty vertex list. Otherwise it builds the graph, searches
  with `req.order or "degree"` and picks the message from the outcome.
- **Scenarios** (module `Scenarios`): what `solve` answers for small
  requests. A triangle with two colours gets no colouring, and with three
  colours gets three different ones. A single edge gets two different
  colours. A graph without edges is coloured 0 throughout, with no conflict
  in the trace.

A vertex is a `string`. Colours are unbounded `int`s; the search only
produces `0..k-1`. The four messages are an enumeration (`Message`) rather
than the service's literal strings.

## Model

| member | source | states |
|---|---|---|
| Graph.Distinct | back/server.py:43 | the keys of `{u: [] for u in nodes}` repeat nothing and are exactly the input nodes |
| Graph.BuildAdj | back/server.py:42-50 | the loop over the edges returns `Adjacency(nodes, edges)`: the empty dictionary updated by each edge in input order |
| Graph.AddEdgeNeighbours | back/server.py:45-49 | one edge makes `v` a neighbour of `u` exactly when it joins them, both are keys and `u != v`; an endpoint's list gains at most the other endpoint, appended at its end; every other list is left identical |
| Graph.AdjacencyKeys | back/server.py:43 | the keys of the result are the distinct input nodes in order of first occurrence, whatever the edges |
| Graph.AdjacencyWellFormed | back/server.py:42-50 | neighbour lists have no repeats and never hold their own key, every neighbour is a key, and the relation is symmetric |
| Graph.AdjacencyNeighbours | back/server.py:44-49 | `v` is in `adj[u]` iff `u` and `v` are distinct input nodes joined by some edge, in either direction |
| Graph.AddEdgesAppend | back/server.py:44-49 | processing edges `x` then `y` is processing `x + y`: the loop is a left fold |
| Graph.RepeatedEdgeIgnored | back/server.py:46-49 | an edge that repeats an earlier one, either way round, changes nothing wherever it appears |
| Graph.ReversedEdge | back/server.py:45-49 | giving an edge as `(v, u)` instead of `(u, v)`, anywhere in the edge list, builds the same dictionary, key order and list order included |
| Ordering.SortByDegree | back/server.py:55 | the sort returns a permutation of its input |
| Ordering.SortByDegreeSorted | back/server.py:55 | the sort's result has non-increasing degrees and no repeats when its input has none |
| Ordering.SortByDegreeStable | back/server.py:55 | for every degree, the vertices of that degree keep their input order |
| Ordering.OrderNodesSpec | back/server.py:52-56 | `order_nodes` returns a permutation of the keys; under "degree" degrees never increase and equal degrees keep key order; any other string returns the keys unchanged |
| Ordering.EqualDegreesKeepKeyOrder | back/server.py:53-55 | when all vertices have one degree (a cycle, say), "degree" order is key order |
| Coloring.NoClash | back/server.py:59-62 | the neighbour scan returns true iff no listed vertex reads as colour `c` under `colors.get(v, -1)` |
| Coloring.Compatible | back/server.py:58-62 | for `c >= 0`, `compatible` is false iff some coloured neighbour holds `c`; uncoloured neighbours never clash |
| Coloring.CompatibleKeepsProper | back/server.py:76-77 | assigning a compatible colour keeps a proper partial assignment proper |
| Search.Searcher.constructor | back/server.py:66-67 | the search starts with no colours and no steps |
| Search.Searcher.Backtrack | back/server.py:69-86 | `backtrack(i)`, entered with colours on exactly `nodes[..i]`, returns, leaves and appends exactly what `Explore` says; on failure `colors` is as on entry |
| Search.Searcher.TryColor | back/server.py:75-85 | one pass of the colour loop appends `try`, then `assign`, the deeper steps and `backtrack` (deleting the colour), or `conflict`, exactly as `Attempt` says |
| Search.ColorGraphBacktracking | back/server.py:64-89 | returns `ColorGraph(g, k, order)`: empty colours on failure; on a well-formed graph, success iff a k-colouring exists, and the colours are one |
| Search.PrefixExtend | back/server.py:73-77 | assigning `nodes[i]` extends colours on `nodes[..i]` to colours on `nodes[..i+1]`, and deleting it restores them |
| Search.ExploreRestores | back/server.py:69-86 | when `backtrack(i)` fails, the `del` calls have left `colors` as it was on entry |
| Search.AttemptRestores | back/server.py:76-85 | a pass of the colour loop that does not succeed leaves `colors` as it found it |
| Search.ClashExcluded | back/server.py:76-85 | a colour that clashes with a coloured neighbour is given to the vertex by no k-colouring extending the assignment |
| Search.AttemptCorrect | back/server.py:75-85 | a successful pass yields a k-colouring extending the assignment with the vertex given `c`; a failed pass means no extension gives it `c` |
| Search.TryColorsCorrect | back/server.py:74-86 | the loop from colour `c` finds the least colour from `c` on that any k-colouring extending the assignment gives the vertex, or fails when there is none |
| Search.ExploreCorrect | back/server.py:69-86 | success yields a k-colouring extending the entry assignment, with first fit for the vertex; failure means no k-colouring extends it |
| Search.ColorGraphCorrect | back/server.py:64-89 | on a well-formed graph: success iff a k-colouring exists (soundness and completeness), the returned colours are one, and failure returns no colours |
| Trace.WellTracedAt | back/server.py:70-85 | in a well-formed trace, each step agrees with its snapshot and each `try` is followed directly by `assign` or `conflict` for the same vertex and colour |
| Trace.ExploreTrace | back/server.py:69-86 | the steps of `backtrack(i)` are well formed, concern `nodes[i..]` only, end in exactly one `done` with the colouring on success, and try colours 0, 1, ... for `nodes[i]` |
| Trace.TryColorsTrace | back/server.py:74-86 | the colour loop from `c` tries `c, c+1, ...` up to the colour the vertex keeps, or up to `k-1` when it fails |
| Trace.AttemptTrace | back/server.py:75-85 | one pass records exactly one `try`, for its own colour; a `backtrack` snapshot still maps the vertex to that colour |
| Trace.ColorGraphTrace | back/server.py:64-89 | the returned trace is well formed and concerns graph vertices only; it ends in exactly one `done("", None, colouring)` on success and has none on failure; the first vertex tries colours in order |
| Server.EffectiveOrder | back/server.py:103 | a missing order or the empty string means "degree"; any other string is passed on |
| Server.Solve | back/server.py:97-105 | `k` outside 2..5 is rejected first, then an empty vertex list, each with no colours and no steps; otherwise success iff the described graph has a k-colouring, colours are one on success and empty on failure, the trace is well formed, and the message follows `ok`; the outcome is that of the search with order `req.order or "degree"` |
| Scenarios.TriangleNotTwoColorable | back/server.py:42-50 | the graph built from a triangle on three distinct vertices has no 2-colouring |
| Scenarios.TriangleTwoColours | back/server.py:97-105 | `solve` on a triangle with `k = 2` fails with no colours and the no-colouring message |
| Scenarios.TriangleThreeColours | back/server.py:97-105 | `solve` on a triangle with `k = 3` succeeds, colours all three vertices within 0..2, and gives them pairwise different colours |
| Scenarios.SingleEdge | back/server.py:97-105 | `solve` on one edge between distinct vertices with `k = 2` succeeds and gives its ends different colours |
| Scenarios.DistinctColorsColor | back/server.py:42-50 | one distinct colour from `[0, k)` per input vertex is a k-colouring of whatever graph `build_adj` builds |
| Scenarios.SolvedApart | back/server.py:97-105 | for a valid `k` and a nonempty vertex list, when `solve` succeeds, both ends of every edge of the built graph are coloured, with different colours |
| Scenarios.EdgelessExplore | back/server.py:69-86 | on a graph without edges `backtrack(i)` succeeds with colour 0 for every remaining vertex and records no conflict |
| Scenarios.EdgelessAllZero | back/server.py:97-105 | a request without edges and with a valid `k` succeeds, colours every vertex 0, and its trace holds no conflict |

## Left out

- The web application: the FastAPI app, CORS middleware, the `/health` endpoint and uvicorn startup (back/server.py:6-16, 92-94). These are transport and process plumbing.
- Request parsing, response serialisation and pydantic validation (back/server.py:19-39). Only the field structure of `Edge`, `SolveRequest`, `Step` and `SolveResponse` is kept, as datatypes.
- The Spanish message strings. The four outcomes are the `Message` enumeration.
- Python's recursion-depth limit and running time. The trace can be exponentially long; the model proves only that the search terminates.
- Dictionary insertion order inside `colors` and the `partial` snapshots. They are Dafny maps, which have no order. The insertion order of the adjacency keys, which does drive the result, is modelled.
- `Step.partial` is always present in the source, although its type is `Optional`. It is a plain map here.
- Search.Searcher.TryColor: one pass of `for c in range(k)` is a method of its own, called from the loop in `Backtrack`. The appends and the `del` run in the same order as in the source.
- Search.ColorGraphBacktracking: soundness and completeness are stated for well-formed graphs. Every graph `build_adj` returns is one (`Graph.AdjacencyWellFormed`), and `Server.Solve` combines the two facts.
- Ordering.Degree: reads 0 for a vertex that is not a key. The sort never asks about such a vertex.
