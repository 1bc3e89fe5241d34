/**
 * The step trace the algorithm engine records (`recordStep`), the result it
 * posts back, and the structural facts about traces that the algorithms are
 * specified with: which ids are visited, and when a trace is properly nested
 * (every `Visit(v)` closed by a later `Backtrack(v)`, innermost first).
 * Step descriptions (the parallel array of strings) are not modelled.
 */
module Trace {
  import opened Graph
  import opened Sequences

  datatype Algorithm = Bfs | Dfs | Dijkstra | BellmanFord

  datatype Step =
    | NodeStep(id: NodeId)                       // { type: 'node' }
    | Visit(id: NodeId)                          // { type: 'visit' }
    | EdgeStep(edge: Edge, isShortestPath: bool) // { type: 'edge' }
    | Backtrack(id: NodeId)                      // { type: 'backtrack' }
    | Iteration(n: int)                          // { type: 'iteration' }
    | NegativeCycle(edge: Edge)                  // { type: 'negative_cycle' }
    | Complete                                   // { type: 'complete' }

  type Distances = map<NodeId, Dist>
  type Predecessors = map<NodeId, Option<NodeId>>

  /**
   * The worker's reply: the steps, the final tables (`null` for BFS and DFS),
   * and for a Bellman-Ford run that found a negative cycle the offending edges
   * (the `error` payload).
   */
  datatype TraceResult = TraceResult(
    steps: seq<Step>,
    distances: Option<Distances>,
    previous: Option<Predecessors>,
    cycleEdges: Option<seq<Edge>>)

  /** The ids of the `Visit` steps of a trace. */
  ghost function VisitIds(steps: seq<Step>): set<NodeId> {
    set st | st in steps && st.Visit? :: st.id
  }

  lemma VisitIdsAppend(a: seq<Step>, b: seq<Step>)
    ensures VisitIds(a + b) == VisitIds(a) + VisitIds(b)
  {
    assert forall st :: st in a + b <==> st in a || st in b;
  }

  lemma VisitIdsOne(st: Step)
    ensures VisitIds([st]) == if st.Visit? then {st.id} else {}
  {
    assert forall x :: x in [st] <==> x == st;
  }

  /** Traversal edges: existing edges, never marked as shortest-path edges. */
  ghost predicate EdgeSteps(g: Snapshot, steps: seq<Step>) {
    forall st :: st in steps ==> st.EdgeStep? && st.edge in g.edges && !st.isShortestPath
  }

  lemma EdgeStepsNoVisits(g: Snapshot, a: seq<Step>)
    requires EdgeSteps(g, a)
    ensures VisitIds(a) == {}
  {
  }

  /** Every step is a visit or a traversal edge. */
  ghost predicate VisitsAndEdges(g: Snapshot, steps: seq<Step>) {
    forall st :: st in steps ==> st.Visit? || (st.EdgeStep? && st.edge in g.edges && !st.isShortestPath)
  }

  /** The id of the last `Visit` of a trace, if there is one. */
  function LastVisit(steps: seq<Step>): Option<NodeId> {
    if steps == [] then None
    else if steps[|steps| - 1].Visit? then Some(steps[|steps| - 1].id)
    else LastVisit(steps[..|steps| - 1])
  }

  /** A visit followed by steps that are not visits leaves that visit the last one. */
  lemma {:induction false} LastVisitAt(t: seq<Step>, j: nat)
    requires j < |t| && t[j].Visit? && forall m :: j < m < |t| ==> !t[m].Visit?
    ensures LastVisit(t) == Some(t[j].id)
    decreases |t|
  {
    if j < |t| - 1 {
      var t' := t[..|t| - 1];
      assert t'[j] == t[j] && forall m :: j < m < |t'| ==> t'[m] == t[m];
      LastVisitAt(t', j);
    }
  }

  /** A traversal edge out of `u`, leading to a node of `ids`. */
  ghost predicate EdgeFrom(g: Snapshot, u: NodeId, ids: set<NodeId>, st: Step) {
    && st.EdgeStep? && st.edge in g.edges && !st.isShortestPath
    && Connects(st.edge, u, OtherEnd(st.edge, u), g.directed) && OtherEnd(st.edge, u) in ids
  }

  /** Every traversal edge of the trace leaves the node visited last before it and leads to a node of `ids`. */
  ghost predicate Expanding(g: Snapshot, steps: seq<Step>, ids: set<NodeId>) {
    forall i :: 0 <= i < |steps| && steps[i].EdgeStep? ==>
      LastVisit(steps[..i]).Some? && EdgeFrom(g, LastVisit(steps[..i]).value, ids, steps[i])
  }

  /** Shortest-path edges: existing edges, marked as such. */
  ghost predicate PathSteps(g: Snapshot, steps: seq<Step>) {
    forall st :: st in steps ==> st.EdgeStep? && st.edge in g.edges && st.isShortestPath
  }

  lemma PathStepsNoVisits(g: Snapshot, a: seq<Step>)
    requires PathSteps(g, a)
    ensures VisitIds(a) == {} && VisitsDistinct(a)
  {
    forall i | 0 <= i < |a| ensures !a[i].Visit? {
      assert a[i] in a;
    }
  }

  /**
   * The step recorded for moving from `u` to `v`: the first edge joining them,
   * if there is one (`workerEdges.find(...)`, then `recordStep` under `if (edgeData)`).
   */
  function TraverseStep(g: Snapshot, u: NodeId, v: NodeId): (r: seq<Step>)
    ensures |r| <= 1 && EdgeSteps(g, r)
    ensures forall st :: st in r ==> Connects(st.edge, u, v, g.directed) && OtherEnd(st.edge, u) == v
  {
    match FindEdge(g.edges, u, v, g.directed)
    case None => []
    case Some(e) => [EdgeStep(e, false)]
  }

  /** Moving to a neighbour always finds its edge: the `if (edgeData)` test never fails. */
  lemma TraverseStepFound(g: Snapshot, u: NodeId, v: NodeId)
    requires v in NeighbourSet(g, u)
    ensures |TraverseStep(g, u, v)| == 1
  {
    var e :| e in g.edges && Incident(e, u, g.directed) && OtherEnd(e, u) in g.nodes && OtherEnd(e, u) == v;
    IncidentConnects(e, u, g.directed);
  }

  /** No id is visited twice. */
  ghost predicate VisitsDistinct(steps: seq<Step>) {
    forall i, j :: 0 <= i < j < |steps| && steps[i].Visit? && steps[j].Visit? ==> steps[i].id != steps[j].id
  }

  /** Two traces without repeated visits, visiting disjoint ids, concatenate to one without repeated visits. */
  lemma VisitsDistinctAppend(a: seq<Step>, b: seq<Step>)
    requires VisitsDistinct(a) && VisitsDistinct(b) && VisitIds(a) * VisitIds(b) == {}
    ensures VisitsDistinct(a + b)
  {
    var t := a + b;
    forall i, j | 0 <= i < j < |t| && t[i].Visit? && t[j].Visit? ensures t[i].id != t[j].id {
      if j < |a| {
        assert t[i] == a[i] && t[j] == a[j];
      } else if i >= |a| {
        assert t[i] == b[i - |a|] && t[j] == b[j - |a|];
      } else {
        assert t[i] == a[i] && t[j] == b[j - |a|];
        assert t[i] in a && t[j] in b;
        assert t[i].id in VisitIds(a) && t[j].id in VisitIds(b);
        assert t[j].id !in VisitIds(a) by { assert t[j].id !in VisitIds(a) * VisitIds(b); }
      }
    }
  }

  // ---------------------------------------------------------------- tables

  /**
   * The table set-up shared by Dijkstra and Bellman-Ford (`workerNodes.forEach`):
   * every node at distance Infinity without a predecessor.
   */
  method InitTables(g: Snapshot) returns (dist: Distances, prev: Predecessors)
    ensures dist.Keys == NodeSet(g) && prev.Keys == NodeSet(g)
    ensures forall v :: v in dist ==> dist[v] == Inf
    ensures forall v :: v in prev ==> prev[v] == None
  {
    dist, prev := map[], map[];
    for i := 0 to |g.nodes|
      invariant dist.Keys == (set j | 0 <= j < i :: g.nodes[j]) && prev.Keys == dist.Keys
      invariant forall v :: v in dist ==> dist[v] == Inf
      invariant forall v :: v in prev ==> prev[v] == None
    {
      dist := dist[g.nodes[i] := Inf];
      prev := prev[g.nodes[i] := None];
    }
    assert forall v :: v in g.nodes ==> exists j :: 0 <= j < |g.nodes| && g.nodes[j] == v;
  }

  // ---------------------------------------------------------------- nesting

  /**
   * One step of the nesting check over a stack of open visits: a `Visit` opens an
   * existing node that is not already open, a `Backtrack` closes the innermost
   * open node, any other step leaves the stack alone.  `None` means the trace is
   * not properly nested.
   */
  function Open(st: Step, stack: seq<NodeId>, nodes: set<NodeId>): Option<seq<NodeId>> {
    match st
    case Visit(v) => if v in nodes && v !in stack then Some(stack + [v]) else None
    case Backtrack(v) => if stack != [] && stack[|stack| - 1] == v then Some(stack[..|stack| - 1]) else None
    case _ => Some(stack)
  }

  /** Runs the nesting check over a trace, from a given stack of open visits. */
  function Nest(steps: seq<Step>, stack: seq<NodeId>, nodes: set<NodeId>): Option<seq<NodeId>>
    decreases |steps|
  {
    if steps == [] then Some(stack)
    else
      match Open(steps[0], stack, nodes)
      case None => None
      case Some(t) => Nest(steps[1..], t, nodes)
  }

  function Then(r: Option<seq<NodeId>>, b: seq<Step>, nodes: set<NodeId>): Option<seq<NodeId>> {
    match r
    case None => None
    case Some(t) => Nest(b, t, nodes)
  }

  /** Checking a concatenation is checking the first part, then the second from where it ended. */
  lemma {:induction false} NestAppend(a: seq<Step>, b: seq<Step>, stack: seq<NodeId>, nodes: set<NodeId>)
    ensures Nest(a + b, stack, nodes) == Then(Nest(a, stack, nodes), b, nodes)
    decreases |a|
  {
    if a == [] {
      assert a + b == b;
    } else {
      assert (a + b)[0] == a[0] && (a + b)[1..] == a[1..] + b;
      match Open(a[0], stack, nodes)
      case None =>
      case Some(t) => NestAppend(a[1..], b, t, nodes);
    }
  }

  /** A properly nested trace has properly nested prefixes. */
  lemma NestPrefix(a: seq<Step>, k: nat, stack: seq<NodeId>, nodes: set<NodeId>)
    requires k <= |a| && Nest(a, stack, nodes).Some?
    ensures Nest(a[..k], stack, nodes).Some?
  {
    assert a == a[..k] + a[k..];
    NestAppend(a[..k], a[k..], stack, nodes);
  }

  /**
   * The open visits never repeat an id and are all existing nodes, so at any
   * point at most |nodes| visits are open: the recursion depth bound of DFS.
   */
  lemma {:induction false} NestDepth(a: seq<Step>, stack: seq<NodeId>, nodes: set<NodeId>)
    requires Distinct(stack) && forall x :: x in stack ==> x in nodes
    requires Nest(a, stack, nodes).Some?
    ensures Distinct(Nest(a, stack, nodes).value)
    ensures forall x :: x in Nest(a, stack, nodes).value ==> x in nodes
    ensures |Nest(a, stack, nodes).value| <= |nodes|
    decreases |a|
  {
    if a == [] {
      assert forall x :: x in stack ==> x in nodes;
      DistinctLength(stack, nodes);
    } else {
      var t := Open(a[0], stack, nodes).value;
      if a[0].Visit? {
        assert t == stack + [a[0].id];
        forall i, j | 0 <= i < j < |t| ensures t[i] != t[j] {
          if j == |stack| { assert t[i] == stack[i]; }
          else { assert t[i] == stack[i] && t[j] == stack[j]; }
        }
      } else if a[0].Backtrack? {
        assert t == stack[..|stack| - 1];
        forall x | x in t ensures x in nodes {
          var i :| 0 <= i < |t| && t[i] == x;
          assert stack[i] == x;
        }
      }
      NestDepth(a[1..], t, nodes);
    }
  }
}
