/**
 * `runAlgorithm` and the worker's dispatch: the guards the editor applies before
 * starting a run, in their order, then the algorithm asked for on a value copy
 * of the graph, and the reply the worker posts (steps, the final tables for the
 * shortest-path algorithms, and for a Bellman-Ford run that found improvable
 * edges the error payload naming them).
 */
module Engine {
  import opened Graph
  import opened Trace
  import BfsRun = Bfs
  import DfsRun = Dfs
  import DijkstraRun = Dijkstra
  import BellmanFordRun = BellmanFord

  /** Why `runAlgorithm` does not start, one value per early `return`. */
  datatype Refusal = NoAlgorithm | EmptyGraph | NoStart | NegativeWeight

  datatype Outcome = Refused(why: Refusal) | Ran(result: TraceResult)

  /**
   * The start node is usable: set (`!startNodeId` also rejects the id 0) and an
   * existing node.
   */
  predicate ValidStart(g: Snapshot, start: Option<NodeId>) {
    start.Some? && start.value != 0 && start.value in g.nodes
  }

  /** The guards of `runAlgorithm`, checked in order; `None` when the run may start. */
  function Guard(g: Snapshot, start: Option<NodeId>, algorithm: Option<Algorithm>): (r: Option<Refusal>)
    ensures r.None? <==> (algorithm.Some? && |g.nodes| > 0 && ValidStart(g, start)
                          && (algorithm.value == Dijkstra ==> NonNegative(g)))
    ensures r == Some(NegativeWeight) ==> algorithm == Some(Dijkstra) && ValidStart(g, start) && !NonNegative(g)
    ensures r == Some(NoStart) ==> algorithm.Some? && |g.nodes| > 0 && !ValidStart(g, start)
    ensures r == Some(EmptyGraph) ==> algorithm.Some? && |g.nodes| == 0
    ensures r == Some(NoAlgorithm) <==> algorithm.None?
  {
    if algorithm.None? then Some(NoAlgorithm)
    else if |g.nodes| == 0 then Some(EmptyGraph)
    else if !ValidStart(g, start) then Some(NoStart)
    else if algorithm.value == Dijkstra && !NonNegative(g) then Some(NegativeWeight)
    else None
  }

  /**
   * Every distance is right: finite exactly for the nodes reachable from `s`,
   * and then the weight of a lightest walk.
   */
  ghost predicate AllCorrect(g: Snapshot, s: NodeId, dist: Distances) {
    forall v :: v in dist ==> BellmanFordRun.Correct(g, s, dist, v)
  }

  /**
   * A run: refused exactly when a guard fails, with that guard's reason;
   * otherwise the trace starts at the start node, BFS and DFS return no tables,
   * the traversals visit exactly the reachable nodes, only Bellman-Ford reports
   * an error, a run without an error ends with `complete`, and whenever tables
   * come back without an error every distance in them is right, while an error
   * names at least one edge and comes with a wrong distance.
   */
  method Run(g: Snapshot, start: Option<NodeId>, algorithm: Option<Algorithm>) returns (o: Outcome)
    ensures o.Refused? <==> Guard(g, start, algorithm).Some?
    ensures o.Refused? ==> o.why == Guard(g, start, algorithm).value
    ensures o.Ran? ==> |o.result.steps| >= 1 && o.result.steps[0] == NodeStep(start.value)
    ensures o.Ran? ==> (o.result.distances.None? <==> algorithm.value in {Bfs, Dfs})
    ensures o.Ran? ==> (o.result.distances.Some? <==> o.result.previous.Some?)
    ensures o.Ran? && algorithm.value != BellmanFord ==>
      forall v :: v in VisitIds(o.result.steps) <==> Reachable(g, start.value, v)
    ensures o.Ran? && o.result.cycleEdges.Some? ==> algorithm.value == BellmanFord && o.result.cycleEdges.value != []
    ensures o.Ran? && o.result.cycleEdges.None? ==> o.result.steps[|o.result.steps| - 1] == Complete
    ensures o.Ran? && o.result.distances.Some? ==>
      (o.result.cycleEdges.None? <==> AllCorrect(g, start.value, o.result.distances.value))
  {
    var refusal := Guard(g, start, algorithm);
    if refusal.Some? {
      return Refused(refusal.value);
    }
    var s := start.value;
    match algorithm.value {
      case Bfs =>
        var steps := BfsRun.Bfs(g, s);
        o := Ran(TraceResult(steps, None, None, None));
      case Dfs =>
        var steps := DfsRun.Dfs(g, s);
        o := Ran(TraceResult(steps, None, None, None));
      case Dijkstra =>
        ghost var explored;
        var steps, dist, prev;
        steps, dist, prev, explored := DijkstraRun.Dijkstra(g, s);
        o := Ran(TraceResult(steps, Some(dist), Some(prev), None));
      case BellmanFord =>
        ghost var passes, k;
        var steps, dist, prev, cycles;
        steps, dist, prev, cycles, passes, k := BellmanFordRun.BellmanFord(g, s);
        o := Ran(TraceResult(steps, Some(dist), Some(prev), if cycles == [] then None else Some(cycles)));
    }
  }
}
