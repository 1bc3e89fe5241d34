/**
 * Breadth-first traversal of the worker (`algorithm === 'bfs'`): a FIFO queue
 * seeded with the start node, neighbours taken in ascending id order, each
 * marked visited when it is enqueued.  The neighbour list of a node keeps one
 * entry per incident edge, so parallel edges enqueue a node more than once and
 * it is then visited more than once; the statements below hold regardless.
 */
module Bfs {
  import opened Sequences
  import opened Graph
  import opened Trace

  /**
   * The state of the `while (queue.length > 0)` loop: everything marked visited is
   * a reachable node and has been visited (`seen`) or is still queued, everything
   * queued is marked, and the neighbours of every visited node are marked.
   */
  ghost predicate Marked(g: Snapshot, start: NodeId, visited: set<NodeId>, queue: seq<NodeId>, seen: set<NodeId>) {
    && visited <= NodeSet(g)
    && (forall v :: v in visited ==> Reachable(g, start, v))
    && (forall v :: v in queue ==> v in visited)
    && (forall v :: v in visited ==> v in seen || v in queue)
    && (forall u :: u in seen ==> NeighbourSet(g, u) <= visited)
    && seen <= visited
  }

  /** The trace so far: the start marker, then visits and edges, the first visit being the start's. */
  ghost predicate Shape(g: Snapshot, start: NodeId, queue: seq<NodeId>, steps: seq<Step>) {
    && |steps| >= 1 && steps[0] == NodeStep(start) && VisitsAndEdges(g, steps[1..])
    && (|steps| == 1 ==> queue == [start])
    && (|steps| >= 2 ==> steps[1] == Visit(start))
  }

  ghost predicate Invariant(g: Snapshot, start: NodeId, visited: set<NodeId>, queue: seq<NodeId>, steps: seq<Step>) {
    Marked(g, start, visited, queue, VisitIds(steps)) && Shape(g, start, queue, steps) && Expanding(g, steps, visited)
  }

  /**
   * The trace of a BFS run from `start`: the start marker, the visits and traversal
   * edges, then `complete`; the visited ids are exactly the nodes reachable from
   * the start, and the start is visited first.  Every traversal edge leaves the
   * node dequeued and visited last before it and leads to a visited node.
   */
  method Bfs(g: Snapshot, start: NodeId) returns (steps: seq<Step>)
    requires start in g.nodes
    ensures |steps| >= 3 && steps[0] == NodeStep(start) && steps[1] == Visit(start)
    ensures steps[|steps| - 1] == Complete && VisitsAndEdges(g, steps[1..|steps| - 1])
    ensures forall v :: v in VisitIds(steps) <==> Reachable(g, start, v)
    ensures Expanding(g, steps, VisitIds(steps))
  {
    var visited := {start};
    var queue := [start];
    steps := [NodeStep(start)];
    ReachableSelf(g, start);
    VisitIdsOne(NodeStep(start));
    while queue != []
      invariant Invariant(g, start, visited, queue, steps)
      decreases |NodeSet(g) - visited|, |queue|
    {
      visited, queue, steps := Round(g, start, visited, queue, steps);
    }
    ghost var before := steps;
    steps := steps + [Complete];
    Finish(g, start, visited, before);
  }

  /** Once the queue is empty, the visits recorded are closed under neighbours, hence all of the reachable nodes. */
  lemma Finish(g: Snapshot, start: NodeId, visited: set<NodeId>, steps: seq<Step>)
    requires Invariant(g, start, visited, [], steps)
    ensures var all := steps + [Complete];
      && |all| >= 3 && all[0] == NodeStep(start) && all[1] == Visit(start)
      && all[|all| - 1] == Complete && VisitsAndEdges(g, all[1..|all| - 1])
      && (forall v :: v in VisitIds(all) <==> Reachable(g, start, v))
      && Expanding(g, all, VisitIds(all))
  {
    var all := steps + [Complete];
    VisitIdsAppend(steps, [Complete]);
    VisitIdsOne(Complete);
    assert all[1..|all| - 1] == steps[1..];
    assert forall v :: v in visited ==> v in VisitIds(steps);
    assert VisitIds(all) == visited;
    forall v | Reachable(g, start, v) ensures v in VisitIds(all) {
      ClosedHoldsReachable(g, start, visited, v);
    }
    forall i | 0 <= i < |all| && all[i].EdgeStep?
      ensures LastVisit(all[..i]).Some? && EdgeFrom(g, LastVisit(all[..i]).value, visited, all[i])
    {
      assert i < |steps| && all[..i] == steps[..i] && all[i] == steps[i];
    }
  }

  /** One pass of the loop: dequeue a node, visit it, enqueue its unvisited neighbours. */
  method Round(g: Snapshot, start: NodeId, visited: set<NodeId>, queue: seq<NodeId>, steps: seq<Step>)
    returns (visited': set<NodeId>, queue': seq<NodeId>, steps': seq<Step>)
    requires queue != [] && Invariant(g, start, visited, queue, steps)
    ensures Invariant(g, start, visited', queue', steps')
    ensures |NodeSet(g) - visited'| < |NodeSet(g) - visited| || (visited' == visited && |queue'| < |queue|)
  {
    var nodeId := queue[0];
    var withVisit := steps + [Visit(nodeId)];
    var neighbors := UnvisitedNeighbours(g, nodeId, visited);
    visited', queue', steps' := EnqueueNeighbors(g, nodeId, neighbors, visited, queue[1..], withVisit);
    RoundKeeps(g, start, visited, queue, steps, neighbors, visited', queue', steps');
  }

  lemma RoundKeeps(g: Snapshot, start: NodeId, visited: set<NodeId>, queue: seq<NodeId>, steps: seq<Step>,
                   neighbors: seq<NodeId>, visited': set<NodeId>, queue': seq<NodeId>, steps': seq<Step>)
    requires queue != [] && Invariant(g, start, visited, queue, steps)
    requires neighbors == UnvisitedNeighbours(g, queue[0], visited)
    requires visited' == visited + set v | v in neighbors
    requires queue' == queue[1..] + neighbors
    requires |steps'| > |steps| && steps'[..|steps| + 1] == steps + [Visit(queue[0])]
    requires EdgeSteps(g, steps'[|steps| + 1..])
    requires forall st :: st in steps'[|steps| + 1..] ==> EdgeFrom(g, queue[0], visited', st)
    ensures Invariant(g, start, visited', queue', steps')
    ensures |NodeSet(g) - visited'| < |NodeSet(g) - visited| || (visited' == visited && |queue'| < |queue|)
  {
    RoundSteps(g, steps, queue[0], steps');
    RoundExpands(g, steps, queue[0], visited, visited', steps');
    UnvisitedNeighboursMembers(g, queue[0], visited);
    RoundMarks(g, start, visited, queue, VisitIds(steps), neighbors, visited', queue');
    RoundDecreases(g, visited, queue, queue[0], neighbors, visited', queue');
  }

  lemma RoundMarks(g: Snapshot, start: NodeId, visited: set<NodeId>, queue: seq<NodeId>, seen: set<NodeId>,
                   neighbors: seq<NodeId>, visited': set<NodeId>, queue': seq<NodeId>)
    requires queue != [] && Marked(g, start, visited, queue, seen)
    requires forall v :: v in neighbors <==> v in NeighbourSet(g, queue[0]) && v !in visited
    requires visited' == visited + set v | v in neighbors
    requires queue' == queue[1..] + neighbors
    ensures Marked(g, start, visited', queue', seen + {queue[0]})
  {
    var nodeId := queue[0];
    NeighbourSetNodes(g, nodeId);
    forall v | v in visited' ensures v in NodeSet(g) {
      if v !in visited {
        assert v in neighbors;
      }
    }
    forall v | v in neighbors ensures Reachable(g, start, v) {
      ReachableStep(g, start, nodeId, v);
    }
    assert forall v :: v in queue ==> v == nodeId || v in queue[1..];
    assert forall v :: v in queue' ==> v in queue[1..] || v in neighbors;
  }

  /** The loop's measure: a round marks a new node, or marks none and shortens the queue. */
  lemma RoundDecreases(g: Snapshot, visited: set<NodeId>, queue: seq<NodeId>, u: NodeId,
                       neighbors: seq<NodeId>, visited': set<NodeId>, queue': seq<NodeId>)
    requires queue != []
    requires forall v :: v in neighbors ==> v in NeighbourSet(g, u) && v !in visited
    requires visited' == visited + set v | v in neighbors
    requires queue' == queue[1..] + neighbors
    ensures |NodeSet(g) - visited'| < |NodeSet(g) - visited| || (visited' == visited && |queue'| < |queue|)
  {
    NeighbourSetNodes(g, u);
    if neighbors != [] {
      var w := neighbors[0];
      assert w in neighbors;
      assert w in NodeSet(g) - visited && w !in NodeSet(g) - visited';
      StrictSubsetSize(NodeSet(g) - visited', NodeSet(g) - visited);
    } else {
      assert visited' == visited;
    }
  }

  /** The edges of a round leave the node just visited; the earlier edges keep their origins. */
  lemma RoundExpands(g: Snapshot, steps: seq<Step>, u: NodeId, ids: set<NodeId>, ids': set<NodeId>, steps': seq<Step>)
    requires Expanding(g, steps, ids) && ids <= ids'
    requires |steps'| > |steps| && steps'[..|steps| + 1] == steps + [Visit(u)]
    requires forall st :: st in steps'[|steps| + 1..] ==> EdgeFrom(g, u, ids', st)
    ensures Expanding(g, steps', ids')
  {
    var n := |steps|;
    assert steps'[n] == Visit(u);
    forall i | 0 <= i < |steps'| && steps'[i].EdgeStep?
      ensures LastVisit(steps'[..i]).Some? && EdgeFrom(g, LastVisit(steps'[..i]).value, ids', steps'[i])
    {
      if i < n {
        assert steps'[..i] == steps[..i] && steps'[i] == steps[i];
      } else {
        assert i > n;
        forall m | n < m < i ensures !steps'[..i][m].Visit? {
          assert steps'[..i][m] == steps'[m] && steps'[m] in steps'[n + 1..];
          assert EdgeFrom(g, u, ids', steps'[m]);
        }
        LastVisitAt(steps'[..i], n);
        assert steps'[i] in steps'[n + 1..];
      }
    }
  }

  /** The trace after a round: one more visit, then traversal edges only. */
  lemma RoundSteps(g: Snapshot, steps: seq<Step>, nodeId: NodeId, steps': seq<Step>)
    requires |steps| >= 1 && VisitsAndEdges(g, steps[1..])
    requires |steps'| > |steps| && steps'[..|steps| + 1] == steps + [Visit(nodeId)]
    requires EdgeSteps(g, steps'[|steps| + 1..])
    ensures VisitIds(steps') == VisitIds(steps) + {nodeId}
    ensures steps'[0] == steps[0] && VisitsAndEdges(g, steps'[1..])
    ensures steps'[1] == if |steps| == 1 then Visit(nodeId) else steps[1]
  {
    var withVisit := steps + [Visit(nodeId)];
    var extra := steps'[|withVisit|..];
    assert steps' == withVisit + extra;
    TailAppend(withVisit, extra);
    TailAppend(steps, [Visit(nodeId)]);
    VisitIdsAppend(steps, [Visit(nodeId)]);
    VisitIdsAppend(withVisit, extra);
    VisitIdsOne(Visit(nodeId));
  }

  /**
   * The `for (const neighbor of neighbors)` loop: each neighbour is marked
   * visited and appended to the queue, and the edge leading to it is recorded.
   */
  method EnqueueNeighbors(g: Snapshot, nodeId: NodeId, neighbors: seq<NodeId>,
                          visited: set<NodeId>, queue: seq<NodeId>, steps: seq<Step>)
    returns (visited': set<NodeId>, queue': seq<NodeId>, steps': seq<Step>)
    ensures visited' == visited + set v | v in neighbors
    ensures queue' == queue + neighbors
    ensures |steps'| >= |steps| && steps'[..|steps|] == steps && EdgeSteps(g, steps'[|steps|..])
    ensures forall st :: st in steps'[|steps|..] ==> EdgeFrom(g, nodeId, visited', st)
    ensures VisitIds(steps') == VisitIds(steps)
  {
    visited', queue', steps' := visited, queue, steps;
    for k := 0 to |neighbors|
      invariant visited' == visited + set i | 0 <= i < k :: neighbors[i]
      invariant queue' == queue + neighbors[..k]
      invariant |steps'| >= |steps| && steps'[..|steps|] == steps && EdgeSteps(g, steps'[|steps|..])
      invariant forall st :: st in steps'[|steps|..] ==> EdgeFrom(g, nodeId, visited', st)
    {
      var neighbor := neighbors[k];
      visited' := visited' + {neighbor};
      queue' := queue' + [neighbor];
      assert neighbors[..k + 1] == neighbors[..k] + [neighbor];
      ghost var pre := steps';
      steps' := steps' + TraverseStep(g, nodeId, neighbor);
      assert steps'[|steps|..] == pre[|steps|..] + TraverseStep(g, nodeId, neighbor);
    }
    assert neighbors[..|neighbors|] == neighbors;
    assert (set i | 0 <= i < |neighbors| :: neighbors[i]) == set v | v in neighbors;
    assert steps' == steps + steps'[|steps|..];
    VisitIdsAppend(steps, steps'[|steps|..]);
    EdgeStepsNoVisits(g, steps'[|steps|..]);
  }
}
