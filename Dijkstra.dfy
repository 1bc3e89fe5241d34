/**
 * Dijkstra's algorithm of the worker (`algorithm === 'dijkstra'`): tables set to
 * Infinity, the start at 0 in a `PriorityQueue`, and while the queue is not
 * empty a dequeue, a skip when the node was visited already (lazy deletion of
 * stale entries), otherwise a visit followed by the relaxation of its neighbour
 * records in ascending id order.  A shortest-path edge list is then traced back
 * from every node at a finite distance.
 *
 * The algorithm is run only on graphs without negative weights (the guard of
 * `runAlgorithm`), so the method requires that.  With it the distances are proved
 * to be exactly the weights of the lightest walks, the finite ones being exactly
 * the nodes reachable from the start, and each node is visited at most once.
 */
module Dijkstra {
  import opened Sequences
  import opened Graph
  import opened Trace
  import opened PriorityQueues
  import opened Paths

  /** `a` is finite and at most `x`. */
  predicate AtMost(a: Dist, x: int) {
    a.Fin? && a.d <= x
  }

  // ---------------------------------------------------------------- loop state

  /** The tables cover the nodes, the start is at 0, and every finite distance is the weight of a walk. */
  ghost predicate Tables(g: Snapshot, s: NodeId, dist: Distances, prev: Predecessors) {
    && dist.Keys == NodeSet(g) && prev.Keys == NodeSet(g)
    && s in dist && dist[s] == Fin(0)
    && forall v :: v in dist && dist[v].Fin? ==> Achieves(g, s, v, dist[v].d)
  }

  /** Every visited node is at its final distance: no walk to it is lighter. */
  ghost predicate Optimal(g: Snapshot, s: NodeId, dist: Distances, visited: set<NodeId>) {
    forall u :: u in visited ==> u in dist && dist[u].Fin? && LowerBound(g, s, u, dist[u].d)
  }

  /** The records `recs` of `u` are relaxed: each neighbour is at most one edge weight behind `u`. */
  ghost predicate Relaxed(dist: Distances, u: NodeId, recs: seq<Neighbour>) {
    && u in dist && dist[u].Fin?
    && forall nb :: nb in recs ==> nb.id in dist && AtMost(dist[nb.id], dist[u].d + nb.edge.weight)
  }

  ghost predicate AllRelaxed(g: Snapshot, dist: Distances, visited: set<NodeId>) {
    forall u :: u in visited ==> Relaxed(dist, u, NeighbourRecords(g, u))
  }

  /**
   * No queue entry undercuts the distance of its node, and every finite node not
   * yet visited has an entry at exactly its distance.
   */
  ghost predicate Queued(dist: Distances, visited: set<NodeId>, entries: seq<Entry>) {
    && (forall y :: y in entries ==> y.element in dist && AtMost(dist[y.element], y.priority))
    && (forall v :: v in dist && dist[v].Fin? && v !in visited ==> Entry(v, dist[v].d) in entries)
  }

  /** `u` is a visited node one edge away from `v`, and `v`'s distance is `u`'s plus that edge's weight. */
  ghost predicate Link(g: Snapshot, dist: Distances, visited: set<NodeId>, u: NodeId, v: NodeId) {
    && u in visited && u in dist && v in dist && dist[u].Fin? && dist[v].Fin?
    && exists e :: e in g.edges && Connects(e, u, v, g.directed) && dist[v].d == dist[u].d + e.weight
  }

  ghost predicate Linked(g: Snapshot, dist: Distances, prev: Predecessors, visited: set<NodeId>) {
    forall v :: v in prev && prev[v].Some? ==> Link(g, dist, visited, prev[v].value, v)
  }

  /** The trace so far: the start marker, then visits and relaxations, no node twice, the visits being `visited`. */
  ghost predicate Traced(g: Snapshot, s: NodeId, visited: set<NodeId>, steps: seq<Step>) {
    && |steps| >= 1 && steps[0] == NodeStep(s) && VisitsAndEdges(g, steps[1..])
    && VisitIds(steps) == visited && VisitsDistinct(steps)
  }

  ghost predicate Core(g: Snapshot, s: NodeId, dist: Distances, prev: Predecessors, visited: set<NodeId>,
                       entries: seq<Entry>, steps: seq<Step>) {
    && Tables(g, s, dist, prev) && visited <= NodeSet(g) && Optimal(g, s, dist, visited)
    && Queued(dist, visited, entries) && Linked(g, dist, prev, visited) && Traced(g, s, visited, steps)
  }

  /** The state at the head of `while (!pq.isEmpty())`. */
  ghost predicate Invariant(g: Snapshot, s: NodeId, dist: Distances, prev: Predecessors, visited: set<NodeId>,
                            entries: seq<Entry>, steps: seq<Step>) {
    Core(g, s, dist, prev, visited, entries, steps) && AllRelaxed(g, dist, visited)
  }

  /** The state inside the neighbour loop of the visited node `u`, the records `done` relaxed so far. */
  ghost predicate Relaxing(g: Snapshot, s: NodeId, dist: Distances, prev: Predecessors, visited: set<NodeId>,
                           entries: seq<Entry>, steps: seq<Step>, u: NodeId, done: seq<Neighbour>) {
    && Core(g, s, dist, prev, visited, entries, steps) && u in visited
    && AllRelaxed(g, dist, visited - {u}) && Relaxed(dist, u, done)
  }

  // ---------------------------------------------------------------- the algorithm

  /**
   * The Dijkstra branch of the worker, up to the shortest-path edges: the trace
   * starts with the start marker and visits every node reachable from the start
   * exactly once; the distances are those of the lightest walks, Infinity exactly
   * for the nodes that cannot be reached; and each predecessor is a visited node
   * one edge before its node on such a walk.
   */
  method Explore(g: Snapshot, s: NodeId) returns (steps: seq<Step>, dist: Distances, prev: Predecessors)
    requires s in g.nodes && NonNegative(g)
    ensures dist.Keys == NodeSet(g) && prev.Keys == NodeSet(g)
    ensures forall v :: v in dist ==> (dist[v].Fin? <==> Reachable(g, s, v))
    ensures forall v :: v in dist && dist[v].Fin? ==> Shortest(g, s, v, dist[v].d)
    ensures forall v :: v in prev && prev[v].Some? ==> Link(g, dist, VisitIds(steps), prev[v].value, v)
    ensures |steps| >= 1 && steps[0] == NodeStep(s) && VisitsAndEdges(g, steps[1..])
    ensures VisitsDistinct(steps) && forall v :: v in VisitIds(steps) <==> Reachable(g, s, v)
  {
    dist, prev := InitTables(g);
    dist := dist[s := Fin(0)];
    var pq := new PriorityQueue();
    pq.Enqueue(s, 0);
    steps := [NodeStep(s)];
    var visited: set<NodeId> := {};
    Begin(g, s, dist, prev, pq.Contents(), steps);
    var empty := pq.IsEmpty();
    while !empty
      invariant fresh(pq.values) && pq.Valid()
      invariant empty <==> pq.Contents() == []
      invariant Invariant(g, s, dist, prev, visited, pq.Contents(), steps)
      decreases |NodeSet(g) - visited|, |pq.Contents()|
    {
      dist, prev, visited, steps := Next(g, s, pq, dist, prev, visited, steps);
      empty := pq.IsEmpty();
    }
    Finish(g, s, dist, prev, visited, steps);
  }

  /**
   * The whole Dijkstra branch: the exploration (`explored`), then the
   * shortest-path edges of every node at a finite distance, then `complete`.
   * No node is visited twice, the visited nodes are the reachable ones, and the
   * distances are those of the lightest walks.
   */
  method Dijkstra(g: Snapshot, s: NodeId) returns (steps: seq<Step>, dist: Distances, prev: Predecessors,
                                                   ghost explored: seq<Step>)
    requires s in g.nodes && NonNegative(g)
    ensures dist.Keys == NodeSet(g) && prev.Keys == NodeSet(g)
    ensures forall v :: v in dist ==> (dist[v].Fin? <==> Reachable(g, s, v))
    ensures forall v :: v in dist && dist[v].Fin? ==> Shortest(g, s, v, dist[v].d)
    ensures forall v :: v in prev && prev[v].Some? ==> Link(g, dist, VisitIds(steps), prev[v].value, v)
    ensures steps == explored + AllMarks(g, s, dist, prev, false, NodeSet(g), g.nodes) + [Complete]
    ensures |explored| >= 1 && explored[0] == NodeStep(s) && VisitsAndEdges(g, explored[1..])
    ensures VisitsDistinct(steps) && forall v :: v in VisitIds(steps) <==> Reachable(g, s, v)
  {
    var traversal;
    traversal, dist, prev := Explore(g, s);
    var marks := EmitPaths(g, s, dist, prev, false, NodeSet(g));
    steps := traversal + marks + [Complete];
    explored := traversal;
    MarksFacts(g, s, dist, prev, false, NodeSet(g), g.nodes);
    ConcludeTrace(g, traversal, marks);
  }

  /** The shortest-path edges and `complete` add no visit. */
  lemma ConcludeTrace(g: Snapshot, explored: seq<Step>, marks: seq<Step>)
    requires PathSteps(g, marks) && VisitsDistinct(explored)
    ensures VisitIds(explored + marks + [Complete]) == VisitIds(explored)
    ensures VisitsDistinct(explored + marks + [Complete])
  {
    PathStepsNoVisits(g, marks);
    VisitIdsAppend(explored, marks);
    VisitIdsAppend(explored + marks, [Complete]);
    VisitIdsOne(Complete);
    VisitsDistinctAppend(explored, marks);
    VisitsDistinctAppend(explored + marks, [Complete]);
  }

  /**
   * What a reconstructed path is worth on Dijkstra's final tables: the nodes
   * along it are existing nodes at finite distances joined by the path's edges,
   * and the path weighs at least the difference of the distances of its ends
   * (exactly that when each edge found is the one that was relaxed).
   */
  lemma TrailWeight(g: Snapshot, s: NodeId, dist: Distances, prev: Predecessors,
                    visited: set<NodeId>, es: seq<Edge>, p: seq<NodeId>)
    requires dist.Keys == NodeSet(g)
    requires forall v :: v in dist && dist[v].Fin? ==> Shortest(g, s, v, dist[v].d)
    requires forall v :: v in prev && prev[v].Some? ==> Link(g, dist, visited, prev[v].value, v)
    requires Trail(g, prev, es, p) && p[|es|] in dist && dist[p[|es|]].Fin?
    ensures WeightedWalk(g, p, es) && forall i :: 0 <= i < |p| ==> p[i] in dist && dist[p[i]].Fin?
    ensures dist[p[|es|]].d - dist[p[0]].d <= Weight(es)
  {
    forall i | 0 <= i < |es|
      ensures Bounded(dist, p[i], p[i + 1], es[i]) && es[i] in g.edges && Connects(es[i], p[i], p[i + 1], g.directed)
    {
      assert Hop(g, prev, p[i], p[i + 1], es[i]);
      HopBound(g, s, dist, prev, visited, p[i], p[i + 1], es[i]);
    }
    Telescope(dist, es, p);
  }

  /** Along a hop of the walk back both ends are at finite distances, at most the edge's weight apart. */
  lemma HopBound(g: Snapshot, s: NodeId, dist: Distances, prev: Predecessors, visited: set<NodeId>,
                 u: NodeId, v: NodeId, e: Edge)
    requires dist.Keys == NodeSet(g)
    requires forall w :: w in dist && dist[w].Fin? ==> Shortest(g, s, w, dist[w].d)
    requires forall w :: w in prev && prev[w].Some? ==> Link(g, dist, visited, prev[w].value, w)
    requires Hop(g, prev, u, v, e)
    ensures Bounded(dist, u, v, e) && e in g.edges && Connects(e, u, v, g.directed)
  {
    assert Link(g, dist, visited, u, v);
    AchievesStep(g, s, u, dist[u].d, e, v);
  }

  /** `u` and `v` are at finite distances and `v` is at most `e`'s weight behind `u`. */
  predicate Bounded(dist: Distances, u: NodeId, v: NodeId, e: Edge) {
    u in dist && v in dist && dist[u].Fin? && dist[v].Fin? && dist[v].d <= dist[u].d + e.weight
  }

  /** Bounds along each hop add up to a bound on the whole weight. */
  lemma {:induction false} Telescope(dist: Distances, es: seq<Edge>, p: seq<NodeId>)
    requires |p| == |es| + 1 && p[|es|] in dist && dist[p[|es|]].Fin?
    requires forall i :: 0 <= i < |es| ==> Bounded(dist, p[i], p[i + 1], es[i])
    ensures forall i :: 0 <= i < |p| ==> p[i] in dist && dist[p[i]].Fin?
    ensures dist[p[|es|]].d - dist[p[0]].d <= Weight(es)
    decreases |es|
  {
    if es != [] {
      var n := |es|;
      var es', p' := es[..n - 1], p[..n];
      assert Bounded(dist, p[n - 1], p[n], es[n - 1]);
      forall i | 0 <= i < |es'| ensures Bounded(dist, p'[i], p'[i + 1], es'[i]) {
        assert Bounded(dist, p[i], p[i + 1], es[i]);
      }
      Telescope(dist, es', p');
      forall i | 0 <= i < |p| ensures p[i] in dist && dist[p[i]].Fin? {
        if i < n {
          assert p[i] == p'[i];
        }
      }
    }
  }

  /** The state after the start is queued. */
  lemma Begin(g: Snapshot, s: NodeId, dist: Distances, prev: Predecessors, entries: seq<Entry>, steps: seq<Step>)
    requires s in g.nodes
    requires dist.Keys == NodeSet(g) && prev.Keys == NodeSet(g)
    requires dist[s] == Fin(0) && forall v :: v in dist && v != s ==> dist[v] == Inf
    requires forall v :: v in prev ==> prev[v] == None
    requires entries == Push([], Entry(s, 0)) && steps == [NodeStep(s)]
    ensures Invariant(g, s, dist, prev, {}, entries, steps)
  {
    AchievesStart(g, s);
    assert entries == [Entry(s, 0)];
    VisitIdsOne(NodeStep(s));
  }

  /** Once the queue is empty every finite node has been visited, and the visited nodes are closed under neighbours. */
  lemma Finish(g: Snapshot, s: NodeId, dist: Distances, prev: Predecessors, visited: set<NodeId>, steps: seq<Step>)
    requires Invariant(g, s, dist, prev, visited, [], steps)
    ensures forall v :: v in dist ==> (dist[v].Fin? <==> Reachable(g, s, v))
    ensures forall v :: v in dist && dist[v].Fin? ==> Shortest(g, s, v, dist[v].d)
    ensures forall v :: v in VisitIds(steps) <==> Reachable(g, s, v)
  {
    assert forall v :: v in dist && dist[v].Fin? ==> v in visited;
    forall x, y | x in visited && y in NeighbourSet(g, x) ensures y in visited {
      var nb := NeighbourSetHasRecord(g, x, y);
    }
    assert Closed(g, visited);
    forall v | Reachable(g, s, v) ensures v in visited {
      ClosedHoldsReachable(g, s, visited, v);
    }
    forall v | v in visited ensures Reachable(g, s, v) {
      AchievesReachable(g, s, v, dist[v].d);
    }
  }

  /**
   * One pass of the main loop: dequeue; skip a node visited already, otherwise
   * visit it and relax its neighbours.
   */
  method Next(g: Snapshot, s: NodeId, pq: PriorityQueue, dist: Distances, prev: Predecessors,
              visited: set<NodeId>, steps: seq<Step>)
    returns (dist': Distances, prev': Predecessors, visited': set<NodeId>, steps': seq<Step>)
    requires NonNegative(g) && pq.Valid() && pq.Contents() != []
    requires Invariant(g, s, dist, prev, visited, pq.Contents(), steps)
    modifies pq, pq.values
    ensures pq.Valid() && (fresh(pq.values) || pq.values == old(pq.values))
    ensures Invariant(g, s, dist', prev', visited', pq.Contents(), steps')
    ensures |NodeSet(g) - visited'| < |NodeSet(g) - visited| || (visited' == visited && |pq.Contents()| < old(|pq.Contents()|))
  {
    ghost var entries := pq.Contents();
    var r := pq.Dequeue();
    var u := r.value;
    PopMembers(entries);
    if u in visited {
      SkipKeeps(g, s, dist, prev, visited, entries, steps);
      dist', prev', visited', steps' := dist, prev, visited, steps;
    } else {
      visited' := visited + {u};
      steps' := steps + [Visit(u)];
      VisitKeeps(g, s, dist, prev, visited, entries, steps);
      var neighbors := NeighbourRecords(g, u);
      dist', prev', steps' := RelaxAll(g, s, pq, dist, prev, visited', steps', u, neighbors);
      assert u in NodeSet(g) - visited && u !in NodeSet(g) - visited';
      StrictSubsetSize(NodeSet(g) - visited', NodeSet(g) - visited);
    }
  }

  /** A stale entry of a visited node is dropped and nothing else changes. */
  lemma SkipKeeps(g: Snapshot, s: NodeId, dist: Distances, prev: Predecessors, visited: set<NodeId>,
                  entries: seq<Entry>, steps: seq<Step>)
    requires entries != [] && IsHeap(entries) && entries[0].element in visited
    requires Invariant(g, s, dist, prev, visited, entries, steps)
    ensures Invariant(g, s, dist, prev, visited, Pop(entries), steps)
  {
    PopMembers(entries);
  }

  /** Visiting the node of the least entry: it is at its final distance, and its visit is the first. */
  lemma VisitKeeps(g: Snapshot, s: NodeId, dist: Distances, prev: Predecessors, visited: set<NodeId>,
                   entries: seq<Entry>, steps: seq<Step>)
    requires NonNegative(g) && entries != [] && IsHeap(entries) && entries[0].element !in visited
    requires Invariant(g, s, dist, prev, visited, entries, steps)
    ensures var u := entries[0].element;
      Relaxing(g, s, dist, prev, visited + {u}, Pop(entries), steps + [Visit(u)], u, [])
  {
    var u := entries[0].element;
    PopMembers(entries);
    Settle(g, s, dist, prev, visited, entries, steps);
    assert (visited + {u}) - {u} == visited;
    TracedAppend(g, s, visited, steps, [Visit(u)]);
    VisitIdsOne(Visit(u));
  }

  /**
   * The node of the least entry is at its final distance: a walk to it leaves the
   * visited nodes somewhere, and already there it weighs no less than that entry.
   */
  lemma Settle(g: Snapshot, s: NodeId, dist: Distances, prev: Predecessors, visited: set<NodeId>,
               entries: seq<Entry>, steps: seq<Step>)
    requires NonNegative(g) && entries != [] && IsHeap(entries) && entries[0].element !in visited
    requires Invariant(g, s, dist, prev, visited, entries, steps)
    ensures Optimal(g, s, dist, visited + {entries[0].element})
  {
    var u := entries[0].element;
    PopMembers(entries);
    assert entries[0] in entries;
    forall p, es | WeightedWalk(g, p, es) && p[0] == s && p[|p| - 1] == u ensures dist[u].d <= Weight(es) {
      FirstExit(g, s, dist, visited, entries, p, es);
    }
  }

  /** Any walk from the start to a node not yet visited weighs at least as much as the least entry. */
  lemma FirstExit(g: Snapshot, s: NodeId, dist: Distances, visited: set<NodeId>, entries: seq<Entry>,
                  p: seq<NodeId>, es: seq<Edge>)
    requires NonNegative(g) && entries != []
    requires s in dist && dist[s] == Fin(0)
    requires Optimal(g, s, dist, visited) && AllRelaxed(g, dist, visited) && Queued(dist, visited, entries)
    requires forall y :: y in entries ==> entries[0].priority <= y.priority
    requires WeightedWalk(g, p, es) && p[0] == s && p[|p| - 1] !in visited
    ensures entries[0].priority <= Weight(es)
  {
    var j := FirstOutside(p, visited);
    var b := p[j];
    if j > 0 {
      var a := p[j - 1];
      WalkPrefix(g, p, es, j - 1);
      assert dist[a].d <= Weight(es[..j - 1]);
      ConnectsIncident(es[j - 1], a, b, g.directed);
      NeighbourRecordsMembers(g, a, Neighbour(b, es[j - 1]));
      assert es[..j][..j - 1] == es[..j - 1];
    }
    assert AtMost(dist[b], Weight(es[..j]));
    assert Entry(b, dist[b].d) in entries;
    WeightPrefix(g, es, j);
  }

  /** The first position of `p` outside `S`, when the last one is. */
  lemma FirstOutside(p: seq<NodeId>, S: set<NodeId>) returns (j: nat)
    requires |p| > 0 && p[|p| - 1] !in S
    ensures j < |p| && p[j] !in S && forall i :: 0 <= i < j ==> p[i] in S
  {
    j := 0;
    while p[j] in S
      invariant 0 <= j < |p| && forall i :: 0 <= i < j ==> p[i] in S
      decreases |p| - j
    {
      j := j + 1;
    }
  }

  /** The neighbour loop of the visited node `u` (`for (const neighbor of neighbors)`). */
  method RelaxAll(g: Snapshot, s: NodeId, pq: PriorityQueue, dist: Distances, prev: Predecessors,
                  visited: set<NodeId>, steps: seq<Step>, u: NodeId, neighbors: seq<Neighbour>)
    returns (dist': Distances, prev': Predecessors, steps': seq<Step>)
    requires NonNegative(g) && pq.Valid() && neighbors == NeighbourRecords(g, u)
    requires Relaxing(g, s, dist, prev, visited, pq.Contents(), steps, u, [])
    modifies pq, pq.values
    ensures pq.Valid() && (fresh(pq.values) || pq.values == old(pq.values))
    ensures Invariant(g, s, dist', prev', visited, pq.Contents(), steps')
  {
    dist', prev', steps' := dist, prev, steps;
    for k := 0 to |neighbors|
      invariant pq.Valid() && (fresh(pq.values) || pq.values == old(pq.values))
      invariant Relaxing(g, s, dist', prev', visited, pq.Contents(), steps', u, neighbors[..k])
    {
      PrefixSnoc(neighbors, k);
      RecordFacts(g, u, neighbors[k]);
      ghost var (dist0, prev0, entries0, steps0) := (dist', prev', pq.Contents(), steps');
      dist', prev', steps' := RelaxOne(pq, dist', prev', steps', u, neighbors[k]);
      StepKeeps(g, s, dist0, prev0, visited, entries0, steps0, u, neighbors[..k], neighbors[k],
                dist', prev', pq.Contents(), steps');
    }
    assert neighbors[..|neighbors|] == neighbors;
    Settled(g, s, dist', prev', visited, pq.Contents(), steps', u);
  }

  /** Once all records of `u` are relaxed, the loop state at the head of the main loop holds again. */
  lemma Settled(g: Snapshot, s: NodeId, dist: Distances, prev: Predecessors, visited: set<NodeId>,
                entries: seq<Entry>, steps: seq<Step>, u: NodeId)
    requires Relaxing(g, s, dist, prev, visited, entries, steps, u, NeighbourRecords(g, u))
    ensures Invariant(g, s, dist, prev, visited, entries, steps)
  {
    forall w | w in visited ensures Relaxed(dist, w, NeighbourRecords(g, w)) {
      if w != u {
        assert w in visited - {u};
      }
    }
  }

  /**
   * One record of the neighbour loop: when `alt` undercuts the neighbour's
   * distance, the distance is lowered, the predecessor set, the neighbour queued
   * at `alt` and the edge recorded; otherwise nothing changes.
   */
  method RelaxOne(pq: PriorityQueue, dist: Distances, prev: Predecessors, steps: seq<Step>, u: NodeId, nb: Neighbour)
    returns (dist': Distances, prev': Predecessors, steps': seq<Step>)
    requires pq.Valid() && u in dist && dist[u].Fin? && nb.id in dist
    modifies pq, pq.values
    ensures pq.Valid() && (fresh(pq.values) || pq.values == old(pq.values))
    ensures Relaxation(dist, prev, old(pq.Contents()), steps, u, nb, dist', prev', pq.Contents(), steps')
  {
    var v := nb.id;
    var alt := dist[u].d + nb.edge.weight;
    if Below(alt, dist[v]) {
      dist' := dist[v := Fin(alt)];
      prev' := prev[v := Some(u)];
      pq.Enqueue(v, alt);
      steps' := steps + [EdgeStep(nb.edge, false)];
    } else {
      dist', prev', steps' := dist, prev, steps;
    }
  }

  /** Whatever `RelaxOne` does, the loop state is kept, with the record now among those done. */
  lemma StepKeeps(g: Snapshot, s: NodeId, dist: Distances, prev: Predecessors, visited: set<NodeId>,
                  entries: seq<Entry>, steps: seq<Step>, u: NodeId, done: seq<Neighbour>, nb: Neighbour,
                  dist': Distances, prev': Predecessors, entries': seq<Entry>, steps': seq<Step>)
    requires NonNegative(g) && Relaxing(g, s, dist, prev, visited, entries, steps, u, done)
    requires nb in NeighbourRecords(g, u) && IsHeap(entries)
    requires Relaxation(dist, prev, entries, steps, u, nb, dist', prev', entries', steps')
    ensures Relaxing(g, s, dist', prev', visited, entries', steps', u, done + [nb])
  {
    RecordFacts(g, u, nb);
    var alt := dist[u].d + nb.edge.weight;
    if Improves(dist, u, nb) {
      PushMembers(entries, Entry(nb.id, alt));
      RelaxKeeps(g, s, dist, prev, visited, entries, steps, u, done, nb, alt, dist', prev', entries', steps');
    } else {
      UnchangedKeeps(g, s, dist, prev, visited, entries, steps, u, done, nb);
    }
  }

  /**
   * The effect of relaxing the record `nb` of `u` on the tables, the queue's
   * entries and the trace: an improvement lowers the distance to `alt`, sets the
   * predecessor to `u`, queues the neighbour at `alt` and records the edge;
   * otherwise nothing changes.
   */
  ghost predicate Relaxation(dist: Distances, prev: Predecessors, entries: seq<Entry>, steps: seq<Step>,
                             u: NodeId, nb: Neighbour,
                             dist': Distances, prev': Predecessors, entries': seq<Entry>, steps': seq<Step>)
    requires u in dist && dist[u].Fin?
  {
    var alt := dist[u].d + nb.edge.weight;
    if Improves(dist, u, nb)
    then dist' == dist[nb.id := Fin(alt)] && prev' == prev[nb.id := Some(u)]
      && entries' == Push(entries, Entry(nb.id, alt)) && steps' == steps + [EdgeStep(nb.edge, false)]
    else dist' == dist && prev' == prev && entries' == entries && steps' == steps
  }

  /** `alt < distances[v]` for the record `nb` of `u`. */
  predicate Improves(dist: Distances, u: NodeId, nb: Neighbour) {
    u in dist && dist[u].Fin? && nb.id in dist && Below(dist[u].d + nb.edge.weight, dist[nb.id])
  }

  /** A record that does not improve is relaxed already. */
  lemma UnchangedKeeps(g: Snapshot, s: NodeId, dist: Distances, prev: Predecessors, visited: set<NodeId>,
                       entries: seq<Entry>, steps: seq<Step>, u: NodeId, done: seq<Neighbour>, nb: Neighbour)
    requires Relaxing(g, s, dist, prev, visited, entries, steps, u, done) && nb.id in dist
    requires !Below(dist[u].d + nb.edge.weight, dist[nb.id])
    ensures Relaxing(g, s, dist, prev, visited, entries, steps, u, done + [nb])
  {
    RelaxedSnoc(dist, u, done, nb);
  }

  lemma RelaxedSnoc(dist: Distances, u: NodeId, done: seq<Neighbour>, nb: Neighbour)
    requires Relaxed(dist, u, done) && nb.id in dist && AtMost(dist[nb.id], dist[u].d + nb.edge.weight)
    ensures Relaxed(dist, u, done + [nb])
  {
  }

  /** A record of `u` is an existing edge followed away from `u` to an existing node. */
  lemma RecordFacts(g: Snapshot, u: NodeId, nb: Neighbour)
    requires nb in NeighbourRecords(g, u)
    ensures nb.edge in g.edges && nb.id in g.nodes && Connects(nb.edge, u, nb.id, g.directed)
  {
    NeighbourRecordsMembers(g, u, nb);
    IncidentConnects(nb.edge, u, g.directed);
  }

  /** One improving relaxation keeps the loop state, with the record now among those done. */
  lemma RelaxKeeps(g: Snapshot, s: NodeId, dist: Distances, prev: Predecessors, visited: set<NodeId>,
                   entries: seq<Entry>, steps: seq<Step>, u: NodeId, done: seq<Neighbour>, nb: Neighbour,
                   alt: int, dist': Distances, prev': Predecessors, entries': seq<Entry>, steps': seq<Step>)
    requires NonNegative(g) && Relaxing(g, s, dist, prev, visited, entries, steps, u, done)
    requires nb in NeighbourRecords(g, u) && nb.id in dist
    requires alt == dist[u].d + nb.edge.weight && Below(alt, dist[nb.id])
    requires dist' == dist[nb.id := Fin(alt)] && prev' == prev[nb.id := Some(u)]
    requires forall y :: y in entries' <==> y in entries || y == Entry(nb.id, alt)
    requires steps' == steps + [EdgeStep(nb.edge, false)]
    ensures Relaxing(g, s, dist', prev', visited, entries', steps', u, done + [nb])
  {
    var v := nb.id;
    RecordFacts(g, u, nb);
    AchievesStep(g, s, u, dist[u].d, nb.edge, v);
    AchievesNonNegative(g, s, v, alt);
    NotImproved(g, s, dist, visited, v, alt);
    assert v !in visited && v != s;
    TablesKeeps(g, s, dist, prev, u, v, alt);
    OptimalKeeps(g, s, dist, visited, v, alt);
    QueuedKeeps(dist, visited, entries, entries', v, alt);
    LinkedKeeps(g, dist, prev, visited, u, v, nb.edge, alt);
    RelaxedKeeps(g, dist, visited, u, done, v, alt);
    RelaxedSnoc(dist', u, done, nb);
    var t := [EdgeStep(nb.edge, false)];
    VisitIdsOne(EdgeStep(nb.edge, false));
    TracedAppend(g, s, visited, steps, t);
    assert visited + VisitIds(t) == visited;
  }

  lemma TablesKeeps(g: Snapshot, s: NodeId, dist: Distances, prev: Predecessors, u: NodeId, v: NodeId, alt: int)
    requires Tables(g, s, dist, prev) && v in dist && v != s && Achieves(g, s, v, alt)
    ensures Tables(g, s, dist[v := Fin(alt)], prev[v := Some(u)])
  {
  }

  lemma OptimalKeeps(g: Snapshot, s: NodeId, dist: Distances, visited: set<NodeId>, v: NodeId, alt: int)
    requires Optimal(g, s, dist, visited) && v !in visited
    ensures Optimal(g, s, dist[v := Fin(alt)], visited)
  {
    forall w | w in visited ensures w in dist && dist[w].Fin? && LowerBound(g, s, w, dist[v := Fin(alt)][w].d) {
      assert w != v;
    }
  }

  lemma QueuedKeeps(dist: Distances, visited: set<NodeId>, entries: seq<Entry>, entries': seq<Entry>, v: NodeId, alt: int)
    requires Queued(dist, visited, entries) && v in dist && Below(alt, dist[v])
    requires forall y :: y in entries' <==> y in entries || y == Entry(v, alt)
    ensures Queued(dist[v := Fin(alt)], visited, entries')
  {
    var dist' := dist[v := Fin(alt)];
    forall y | y in entries' ensures y.element in dist' && AtMost(dist'[y.element], y.priority) {
      if y != Entry(v, alt) {
        assert AtMost(dist[y.element], y.priority);
      }
    }
  }

  /** Under non-negative weights every walk weight, hence every finite distance, is non-negative. */
  lemma AchievesNonNegative(g: Snapshot, s: NodeId, v: NodeId, d: int)
    requires NonNegative(g) && Achieves(g, s, v, d)
    ensures d >= 0
  {
    var p, es :| WeightedWalk(g, p, es) && p[0] == s && p[|p| - 1] == v && Weight(es) == d;
    WeightPrefix(g, es, 0);
  }

  /** A value achieved by a walk never undercuts the final distance of a visited node. */
  lemma NotImproved(g: Snapshot, s: NodeId, dist: Distances, visited: set<NodeId>, v: NodeId, alt: int)
    requires Optimal(g, s, dist, visited) && Achieves(g, s, v, alt)
    ensures v in visited ==> AtMost(dist[v], alt)
  {
    var p, es :| WeightedWalk(g, p, es) && p[0] == s && p[|p| - 1] == v && Weight(es) == alt;
  }

  /** The new predecessor link is right, and no other link is disturbed: those start at visited nodes. */
  lemma LinkedKeeps(g: Snapshot, dist: Distances, prev: Predecessors, visited: set<NodeId>,
                    u: NodeId, v: NodeId, e: Edge, alt: int)
    requires Linked(g, dist, prev, visited) && v !in visited && u in visited && u in dist && dist[u].Fin?
    requires v in dist && e in g.edges && Connects(e, u, v, g.directed) && alt == dist[u].d + e.weight
    ensures Linked(g, dist[v := Fin(alt)], prev[v := Some(u)], visited)
  {
    var dist', prev' := dist[v := Fin(alt)], prev[v := Some(u)];
    forall w | w in prev' && prev'[w].Some? ensures Link(g, dist', visited, prev'[w].value, w) {
      if w != v {
        var x := prev[w].value;
        var e' :| e' in g.edges && Connects(e', x, w, g.directed) && dist[w].d == dist[x].d + e'.weight;
        assert x != v;
      }
    }
  }

  /** Lowering the distance of a node outside `visited` keeps every relaxation bound. */
  lemma RelaxedKeeps(g: Snapshot, dist: Distances, visited: set<NodeId>, u: NodeId, done: seq<Neighbour>,
                     v: NodeId, alt: int)
    requires u in visited && v !in visited && v in dist && Below(alt, dist[v])
    requires AllRelaxed(g, dist, visited - {u}) && Relaxed(dist, u, done)
    ensures AllRelaxed(g, dist[v := Fin(alt)], visited - {u})
    ensures Relaxed(dist[v := Fin(alt)], u, done)
  {
    forall w | w in visited - {u} ensures Relaxed(dist[v := Fin(alt)], w, NeighbourRecords(g, w)) {
      RelaxedLower(dist, w, NeighbourRecords(g, w), v, alt);
    }
    RelaxedLower(dist, u, done, v, alt);
  }

  lemma RelaxedLower(dist: Distances, w: NodeId, recs: seq<Neighbour>, v: NodeId, alt: int)
    requires Relaxed(dist, w, recs) && w != v && v in dist && Below(alt, dist[v])
    ensures Relaxed(dist[v := Fin(alt)], w, recs)
  {
    var dist' := dist[v := Fin(alt)];
    forall nb | nb in recs ensures nb.id in dist' && AtMost(dist'[nb.id], dist'[w].d + nb.edge.weight) {
      assert AtMost(dist[nb.id], dist[w].d + nb.edge.weight);
    }
  }

  /** Appending steps that are visits and relaxations of fresh nodes keeps the trace shape. */
  lemma TracedAppend(g: Snapshot, s: NodeId, visited: set<NodeId>, steps: seq<Step>, t: seq<Step>)
    requires Traced(g, s, visited, steps) && VisitsAndEdges(g, t) && VisitsDistinct(t)
    requires VisitIds(t) * visited == {}
    ensures Traced(g, s, visited + VisitIds(t), steps + t)
  {
    TailAppend(steps, t);
    VisitIdsAppend(steps, t);
    VisitsDistinctAppend(steps, t);
  }
}
