/**
 * The request validation of the `/solve` endpoint: reject a colour count
 * outside 2..5, then an empty vertex list, then build the adjacency
 * dictionary, search with the requested order ("degree" when none or an
 * empty string is given) and report success or failure.
 */
module Server {
  import opened Wrappers
  import opened Graph
  import opened Ordering
  import opened Coloring
  import opened Search
  import opened Trace

  /** A `/solve` request. */
  datatype Request = Request(nodes: seq<Vertex>, edges: seq<Edge>, kColors: int, order: Option<string>)

  /** The four messages the endpoint sends, one per outcome. */
  datatype Message = KOutOfRange | NoNodes | SolutionFound | NoColoring

  /** A `/solve` response. */
  datatype Response = Response(ok: bool, colors: map<Vertex, int>, steps: seq<Step>, message: Message)

  /** `req.order or "degree"`: a missing order and the empty string both mean "degree". */
  function EffectiveOrder(order: Option<string>): (r: string)
    ensures r == "degree" <==> order == None || order == Some("") || order == Some("degree")
    ensures order.Some? && order.value != "" ==> r == order.value
  {
    match order
    case None => "degree"
    case Some(s) => if s == "" then "degree" else s
  }

  /** The colour counts the endpoint accepts. */
  predicate ValidK(k: int)
  {
    2 <= k <= 5
  }

  /**
   * `solve(req)`. An invalid colour count is reported before an empty
   * vertex list; neither runs a search. Otherwise the response carries the
   * search's result: success exactly when the graph the request describes
   * has a k-colouring, a k-colouring of it on success, no colours on
   * failure, a well-formed trace, and the message that matches. The
   * outcome is the search's with the order `EffectiveOrder(req.order)`.
   */
  function Solve(req: Request): (resp: Response)
    ensures !ValidK(req.kColors) ==> resp == Response(false, map[], [], KOutOfRange)
    ensures ValidK(req.kColors) && req.nodes == [] ==> resp == Response(false, map[], [], NoNodes)
    ensures ValidK(req.kColors) && req.nodes != [] ==>
      var g := Adjacency(req.nodes, req.edges);
      && (resp.message == (if resp.ok then SolutionFound else NoColoring))
      && (resp.ok <==> Colorable(g, req.kColors))
      && (resp.ok ==> IsColoring(g, req.kColors, resp.colors))
      && (!resp.ok ==> resp.colors == map[])
      && WellTraced(req.kColors, resp.steps)
      && DoneShape(Outcome(resp.ok, resp.colors, resp.steps))
      && NodesIn(resp.steps, g.keys)
    ensures ValidK(req.kColors) && req.nodes != [] ==>
      var r := ColorGraph(Adjacency(req.nodes, req.edges), req.kColors, EffectiveOrder(req.order));
      resp.ok == r.ok && resp.colors == r.colors && resp.steps == r.steps
  {
    if !ValidK(req.kColors) then Response(false, map[], [], KOutOfRange)
    else if req.nodes == [] then Response(false, map[], [], NoNodes)
    else
      var g := Adjacency(req.nodes, req.edges);
      var order := EffectiveOrder(req.order);
      AdjacencyWellFormed(req.nodes, req.edges);
      ColorGraphCorrect(g, req.kColors, order);
      ColorGraphTrace(g, req.kColors, order);
      var r := ColorGraph(g, req.kColors, order);
      Response(r.ok, r.colors, r.steps, if r.ok then SolutionFound else NoColoring)
  }
}
