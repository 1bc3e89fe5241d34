/**
 * Depth-first traversal of the worker (`algorithm === 'dfs'`, `dfsRecursive`).
 * A node's neighbour list is taken once, when the node is entered, and the
 * loop recurses into every entry of it without asking `visited` again, so a
 * neighbour reached meanwhile through an earlier sibling is entered a second
 * time.  The trace is nonetheless properly nested, and its visits cover exactly
 * the nodes reachable from the start.
 */
module Dfs {
  import opened Sequences
  import opened Graph
  import opened Trace

  /** The steps `dfsRecursive` records: visits, backtracks and traversal edges. */
  ghost predicate DfsSteps(g: Snapshot, steps: seq<Step>) {
    forall st :: st in steps ==> st.Visit? || st.Backtrack? || (st.EdgeStep? && st.edge in g.edges && !st.isShortestPath)
  }

  /** The innermost open visit, if the trace so far is nested and leaves one open. */
  function Innermost(r: Option<seq<NodeId>>): Option<NodeId> {
    if r.Some? && r.value != [] then Some(r.value[|r.value| - 1]) else None
  }

  /**
   * Every traversal edge leaves the innermost visit open before it, starting
   * from `stack`, and is followed at once by the visit of the node it leads to.
   */
  ghost predicate Descends(g: Snapshot, steps: seq<Step>, stack: seq<NodeId>) {
    forall i :: 0 <= i < |steps| && steps[i].EdgeStep? ==>
      && Innermost(Nest(steps[..i], stack, NodeSet(g))).Some?
      && EdgeFrom(g, Innermost(Nest(steps[..i], stack, NodeSet(g))).value, NodeSet(g), steps[i])
      && i + 1 < |steps|
      && steps[i + 1] == Visit(OtherEnd(steps[i].edge, Innermost(Nest(steps[..i], stack, NodeSet(g))).value))
  }

  /** A trace without traversal edges descends trivially. */
  lemma DescendsNone(g: Snapshot, steps: seq<Step>, stack: seq<NodeId>)
    requires forall st :: st in steps ==> !st.EdgeStep?
    ensures Descends(g, steps, stack)
  {
    forall i | 0 <= i < |steps| ensures !steps[i].EdgeStep? {
      assert steps[i] in steps;
    }
  }

  /** Descending traces concatenate, the second checked from where the first left the stack. */
  lemma DescendsAppend(g: Snapshot, a: seq<Step>, b: seq<Step>, stack: seq<NodeId>, t: seq<NodeId>)
    requires Descends(g, a, stack) && Nest(a, stack, NodeSet(g)) == Some(t) && Descends(g, b, t)
    ensures Descends(g, a + b, stack)
  {
    var c := a + b;
    forall i | 0 <= i < |c| && c[i].EdgeStep?
      ensures Innermost(Nest(c[..i], stack, NodeSet(g))).Some?
      ensures EdgeFrom(g, Innermost(Nest(c[..i], stack, NodeSet(g))).value, NodeSet(g), c[i])
      ensures i + 1 < |c| && c[i + 1] == Visit(OtherEnd(c[i].edge, Innermost(Nest(c[..i], stack, NodeSet(g))).value))
    {
      if i < |a| {
        assert c[..i] == a[..i] && c[i] == a[i] && c[i + 1] == a[i + 1];
      } else {
        var j := i - |a|;
        assert c[..i] == a + b[..j] && c[i] == b[j];
        NestAppend(a, b[..j], stack, NodeSet(g));
        assert c[i + 1] == b[j + 1];
      }
    }
  }

  /** The edge to a neighbour, then the neighbour's own segment, from inside the visit of `u`. */
  lemma DescendsEdge(g: Snapshot, u: NodeId, v: NodeId, path: seq<NodeId>, edge: seq<Step>, sub: seq<Step>)
    requires path != [] && path[|path| - 1] == u && v in g.nodes
    requires |edge| <= 1 && forall st :: st in edge ==> EdgeFrom(g, u, NodeSet(g), st) && OtherEnd(st.edge, u) == v
    requires sub != [] && sub[0] == Visit(v) && Descends(g, sub, path)
    ensures Descends(g, edge + sub, path)
  {
    var c := edge + sub;
    if edge == [] {
      assert c == sub;
    } else {
      assert edge[0] in edge;
      NestEdges(g, edge, path, NodeSet(g));
      forall i | 0 <= i < |c| && c[i].EdgeStep?
        ensures Innermost(Nest(c[..i], path, NodeSet(g))).Some?
        ensures EdgeFrom(g, Innermost(Nest(c[..i], path, NodeSet(g))).value, NodeSet(g), c[i])
        ensures i + 1 < |c| && c[i + 1] == Visit(OtherEnd(c[i].edge, Innermost(Nest(c[..i], path, NodeSet(g))).value))
      {
        if i == 0 {
          assert c[..0] == [] && c[0] == edge[0] && c[1] == sub[0];
        } else {
          var j := i - 1;
          assert c[..i] == edge + sub[..j] && c[i] == sub[j];
          NestAppend(edge, sub[..j], path, NodeSet(g));
          assert c[i + 1] == sub[j + 1];
        }
      }
    }
  }

  /** The nodes not on the recursion stack: the measure that bounds the recursion. */
  ghost function Unopened(g: Snapshot, stack: seq<NodeId>): set<NodeId> {
    NodeSet(g) - set x | x in stack
  }

  lemma UnopenedShrinks(g: Snapshot, stack: seq<NodeId>, u: NodeId)
    requires u in g.nodes && u !in stack
    ensures |Unopened(g, stack + [u])| < |Unopened(g, stack)|
  {
    assert u in Unopened(g, stack) && u !in Unopened(g, stack + [u]);
    assert Unopened(g, stack + [u]) < Unopened(g, stack);
    StrictSubsetSize(Unopened(g, stack + [u]), Unopened(g, stack));
  }

  /** Traversal edges leave the open visits as they are. */
  lemma {:induction false} NestEdges(g: Snapshot, t: seq<Step>, stack: seq<NodeId>, nodes: set<NodeId>)
    requires EdgeSteps(g, t)
    ensures Nest(t, stack, nodes) == Some(stack)
    decreases |t|
  {
    if t != [] {
      assert t[0] in t;
      assert forall st :: st in t[1..] ==> st in t;
      NestEdges(g, t[1..], stack, nodes);
    }
  }

  /**
   * The whole DFS trace from `start`: the start marker, the recursion from the
   * start, then `complete`.  It is properly nested (every visit is closed by the
   * matching backtrack, innermost first), every traversal edge leads from the
   * innermost open visit straight into the visit of its other end, and the
   * visited ids are exactly the nodes reachable from the start.
   */
  method Dfs(g: Snapshot, start: NodeId) returns (steps: seq<Step>)
    requires start in g.nodes
    ensures |steps| >= 4 && steps[0] == NodeStep(start) && steps[1] == Visit(start)
    ensures steps[|steps| - 2] == Backtrack(start) && steps[|steps| - 1] == Complete
    ensures DfsSteps(g, steps[1..|steps| - 1])
    ensures Nest(steps, [], NodeSet(g)) == Some([])
    ensures Descends(g, steps, [])
    ensures forall v :: v in VisitIds(steps) <==> Reachable(g, start, v)
  {
    ReachableSetClosed(g, start);
    var visited, seg := DfsRecursive(g, ReachableSet(g, start), start, [], {});
    steps := [NodeStep(start)] + seg + [Complete];
    assert steps[1..|steps| - 1] == seg;
    VisitIdsAppend([NodeStep(start)] + seg, [Complete]);
    VisitIdsAppend([NodeStep(start)], seg);
    VisitIdsOne(NodeStep(start));
    VisitIdsOne(Complete);
    NestAppend([NodeStep(start)] + seg, [Complete], [], NodeSet(g));
    NestAppend([NodeStep(start)], seg, [], NodeSet(g));
    DescendsNone(g, [NodeStep(start)], []);
    DescendsAppend(g, [NodeStep(start)], seg, [], []);
    DescendsNone(g, [Complete], []);
    DescendsAppend(g, [NodeStep(start)] + seg, [Complete], [], []);
    forall v | Reachable(g, start, v) ensures v in VisitIds(steps) {
      ClosedHoldsReachable(g, start, visited, v);
    }
    forall v | v in VisitIds(steps) ensures Reachable(g, start, v) {
      assert v in ReachableSet(g, start);
    }
  }

  /**
   * `dfsRecursive(nodeId)` called with the recursion stack `stack` (ghost: the
   * source keeps it only for the step descriptions) and the set `visited`.  It
   * returns the grown set and the steps it recorded, which start with the visit
   * of `u`, end with its backtrack, are properly nested on top of `stack`, and
   * leave every node they visit with all its neighbours marked visited.
   */
  method DfsRecursive(g: Snapshot, ghost within: set<NodeId>, u: NodeId, ghost stack: seq<NodeId>, visited: set<NodeId>)
    returns (visited': set<NodeId>, seg: seq<Step>)
    requires u in g.nodes && u !in stack && Distinct(stack)
    requires forall x :: x in stack ==> x in visited
    requires visited <= NodeSet(g) && Closed(g, within) && u in within && visited <= within
    ensures visited' == visited + VisitIds(seg) && u in VisitIds(seg)
    ensures visited' <= NodeSet(g) && visited' <= within
    ensures forall x :: x in VisitIds(seg) ==> NeighbourSet(g, x) <= visited'
    ensures |seg| >= 2 && seg[0] == Visit(u) && seg[|seg| - 1] == Backtrack(u) && DfsSteps(g, seg)
    ensures Nest(seg, stack, NodeSet(g)) == Some(stack) && Descends(g, seg, stack)
    decreases |Unopened(g, stack)|, 1
  {
    var inner;
    visited', inner := Descend(g, within, u, stack, visited + {u});
    seg := [Visit(u)] + inner + [Backtrack(u)];
    CloseSegment(g, within, u, stack, visited, visited', inner);
  }

  /**
   * The body of `dfsRecursive(u)` between its visit and its backtrack: `u` is
   * marked, its neighbour list is taken, and every entry of it is entered in turn.
   */
  method Descend(g: Snapshot, ghost within: set<NodeId>, u: NodeId, ghost stack: seq<NodeId>, visited: set<NodeId>)
    returns (visited': set<NodeId>, inner: seq<Step>)
    requires u in g.nodes && u !in stack && Distinct(stack)
    requires forall x :: x in stack ==> x in visited
    requires visited <= NodeSet(g) && Closed(g, within) && u in within && visited <= within
    ensures Progress(g, within, u, stack + [u], visited, visited', inner)
    ensures NeighbourSet(g, u) <= visited'
    decreases |Unopened(g, stack)|, 0
  {
    visited' := visited + {u};
    ghost var marked := visited';
    ghost var path := stack + [u];
    var neighbors := UnvisitedNeighbours(g, u, visited');
    UnvisitedNeighboursMembers(g, u, visited');
    UnopenedShrinks(g, stack, u);
    DistinctSnoc(stack, u);
    inner := [];
    for k := 0 to |neighbors|
      invariant Progress(g, within, u, path, visited, visited', inner)
      invariant forall i :: 0 <= i < k ==> neighbors[i] in visited'
    {
      var neighbor := neighbors[k];
      CanEnter(g, within, u, stack, marked, visited', neighbors, k);
      var edge := TraverseStep(g, u, neighbor);
      var sub;
      ghost var before := visited';
      visited', sub := DfsRecursive(g, within, neighbor, path, visited');
      EnteredStay(neighbors, k, before, visited');
      DescendKeeps(g, within, u, path, visited, before, inner, neighbor, edge, sub, visited');
      inner := inner + edge + sub;
    }
    NeighboursCovered(g, u, marked, neighbors, visited');
  }

  /** The call `dfsRecursive(neighbor)` from inside `dfsRecursive(u)` meets the precondition. */
  lemma CanEnter(g: Snapshot, within: set<NodeId>, u: NodeId, stack: seq<NodeId>, visited: set<NodeId>,
                 visited': set<NodeId>, neighbors: seq<NodeId>, k: nat)
    requires k < |neighbors| && u in g.nodes && u in within && Closed(g, within)
    requires forall v :: v in neighbors <==> v in NeighbourSet(g, u) && v !in visited
    requires forall x :: x in stack ==> x in visited
    requires u in visited && visited <= visited'
    ensures neighbors[k] in g.nodes && neighbors[k] !in stack + [u]
    ensures forall x :: x in stack + [u] ==> x in visited'
    ensures neighbors[k] in within
  {
    var v := neighbors[k];
    assert v in neighbors;
    assert v in NeighbourSet(g, u) && v !in visited;
    NeighbourSetNodes(g, u);
    assert v != u && v !in stack;
    assert v in NodeSet(g);
  }

  /** The state of the neighbour loop of `dfsRecursive(u)`, with `inner` the steps recorded since the visit of `u`. */
  ghost predicate Progress(g: Snapshot, within: set<NodeId>, u: NodeId, path: seq<NodeId>,
                           visited: set<NodeId>, visited': set<NodeId>, inner: seq<Step>) {
    && visited' == visited + {u} + VisitIds(inner)
    && visited' <= NodeSet(g) && visited' <= within
    && (forall x :: x in VisitIds(inner) ==> NeighbourSet(g, x) <= visited')
    && DfsSteps(g, inner)
    && Nest(inner, path, NodeSet(g)) == Some(path)
    && Descends(g, inner, path)
  }

  /** The neighbours entered so far stay marked after the next one is entered. */
  lemma EnteredStay(neighbors: seq<NodeId>, k: nat, before: set<NodeId>, after: set<NodeId>)
    requires k < |neighbors| && before <= after && neighbors[k] in after
    requires forall i :: 0 <= i < k ==> neighbors[i] in before
    ensures forall i :: 0 <= i < k + 1 ==> neighbors[i] in after
  {
  }

  /** After the loop every neighbour of `u` is marked: it was marked already, or the loop entered it. */
  lemma NeighboursCovered(g: Snapshot, u: NodeId, marked: set<NodeId>, neighbors: seq<NodeId>, visited': set<NodeId>)
    requires forall v :: v in neighbors <==> v in NeighbourSet(g, u) && v !in marked
    requires forall i :: 0 <= i < |neighbors| ==> neighbors[i] in visited'
    requires marked <= visited'
    ensures NeighbourSet(g, u) <= visited'
  {
    forall v | v in NeighbourSet(g, u) ensures v in visited' {
      if v !in marked {
        var i :| 0 <= i < |neighbors| && neighbors[i] == v;
      }
    }
  }

  /** One pass of the neighbour loop: the traversal edge and the recursive call's steps keep the loop state. */
  lemma DescendKeeps(g: Snapshot, within: set<NodeId>, u: NodeId, path: seq<NodeId>, visited: set<NodeId>,
                     before: set<NodeId>, inner: seq<Step>, v: NodeId, edge: seq<Step>, sub: seq<Step>,
                     after: set<NodeId>)
    requires Progress(g, within, u, path, visited, before, inner)
    requires path != [] && path[|path| - 1] == u && v in g.nodes
    requires EdgeSteps(g, edge) && |edge| <= 1
    requires forall st :: st in edge ==> Connects(st.edge, u, v, g.directed) && OtherEnd(st.edge, u) == v
    requires sub != [] && sub[0] == Visit(v) && Descends(g, sub, path)
    requires after == before + VisitIds(sub) && after <= NodeSet(g) && after <= within
    requires forall x :: x in VisitIds(sub) ==> NeighbourSet(g, x) <= after
    requires DfsSteps(g, sub) && Nest(sub, path, NodeSet(g)) == Some(path)
    ensures Progress(g, within, u, path, visited, after, inner + edge + sub)
  {
    NestEdges(g, edge, path, NodeSet(g));
    NestAppend(inner, edge, path, NodeSet(g));
    NestAppend(inner + edge, sub, path, NodeSet(g));
    EdgeStepsNoVisits(g, edge);
    VisitIdsAppend(inner, edge);
    VisitIdsAppend(inner + edge, sub);
    assert VisitIds(inner + edge + sub) == VisitIds(inner) + VisitIds(sub);
    DescendsStep(g, u, path, inner, v, edge, sub);
  }

  /** The loop's steps keep descending after the edge to the next neighbour and that neighbour's segment. */
  lemma DescendsStep(g: Snapshot, u: NodeId, path: seq<NodeId>, inner: seq<Step>, v: NodeId, edge: seq<Step>,
                     sub: seq<Step>)
    requires Descends(g, inner, path) && Nest(inner, path, NodeSet(g)) == Some(path)
    requires path != [] && path[|path| - 1] == u && v in g.nodes
    requires EdgeSteps(g, edge) && |edge| <= 1
    requires forall st :: st in edge ==> Connects(st.edge, u, v, g.directed) && OtherEnd(st.edge, u) == v
    requires sub != [] && sub[0] == Visit(v) && Descends(g, sub, path)
    ensures Descends(g, inner + edge + sub, path)
  {
    DescendsEdge(g, u, v, path, edge, sub);
    DescendsAppend(g, inner, edge + sub, path, path);
    assert inner + edge + sub == inner + (edge + sub);
  }

  /** Wrapping the loop's steps in the visit and the backtrack of `u` gives the segment `dfsRecursive(u)` promises. */
  lemma CloseSegment(g: Snapshot, within: set<NodeId>, u: NodeId, stack: seq<NodeId>,
                     visited: set<NodeId>, visited': set<NodeId>, inner: seq<Step>)
    requires u in g.nodes && u !in stack
    requires Progress(g, within, u, stack + [u], visited, visited', inner)
    requires NeighbourSet(g, u) <= visited'
    ensures var seg := [Visit(u)] + inner + [Backtrack(u)];
      && visited' == visited + VisitIds(seg) && u in VisitIds(seg)
      && (forall x :: x in VisitIds(seg) ==> NeighbourSet(g, x) <= visited')
      && seg[0] == Visit(u) && seg[|seg| - 1] == Backtrack(u) && DfsSteps(g, seg)
      && Nest(seg, stack, NodeSet(g)) == Some(stack) && Descends(g, seg, stack)
  {
    var seg := [Visit(u)] + inner + [Backtrack(u)];
    VisitIdsAppend([Visit(u)] + inner, [Backtrack(u)]);
    VisitIdsAppend([Visit(u)], inner);
    VisitIdsOne(Visit(u));
    VisitIdsOne(Backtrack(u));
    NestAppend([Visit(u)] + inner, [Backtrack(u)], stack, NodeSet(g));
    NestAppend([Visit(u)], inner, stack, NodeSet(g));
    assert (stack + [u])[..|stack + [u]| - 1] == stack;
    assert Nest([Visit(u)], stack, NodeSet(g)) == Some(stack + [u]);
    assert Nest([Backtrack(u)], stack + [u], NodeSet(g)) == Some(stack);
    assert VisitIds(seg) == {u} + VisitIds(inner);
    DescendsNone(g, [Visit(u)], stack);
    DescendsAppend(g, [Visit(u)], inner, stack, stack + [u]);
    DescendsNone(g, [Backtrack(u)], stack + [u]);
    DescendsAppend(g, [Visit(u)] + inner, [Backtrack(u)], stack, stack + [u]);
  }
}
