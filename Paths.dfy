/**
 * The shortest-path edge emission that ends the Dijkstra and Bellman-Ford
 * branches of the worker: for every node at a finite distance, the predecessor
 * table is followed back from the node, the first edge joining each predecessor
 * to its successor is prepended to a path (`path.unshift(edge)`), and the path's
 * edges are recorded as shortest-path edge steps.  The walk back stops at the
 * start, at a node without a predecessor, when no edge joins the pair, or once
 * the path is longer than the node list; the Bellman-Ford copy of the loop also
 * stops at a node it has met before (`guarded`).
 */
module Paths {
  import opened Sequences
  import opened Graph
  import opened Trace

  /** The condition of the reconstruction loop (`previous[curr] != null && curr !== start`, and `!visited.has(curr)`). */
  predicate Continues(s: NodeId, prev: Predecessors, guarded: bool, curr: NodeId, seen: set<NodeId>) {
    curr in prev && prev[curr].Some? && curr != s && (!guarded || curr !in seen)
  }

  /**
   * The path built by the reconstruction loop from `curr`, `acc` being the edges
   * already prepended and `seen` the nodes already left.
   */
  function Reconstruct(g: Snapshot, s: NodeId, prev: Predecessors, guarded: bool,
                       curr: NodeId, seen: set<NodeId>, acc: seq<Edge>): (r: seq<Edge>)
    requires |acc| <= |g.nodes|
    ensures |acc| <= |r| <= |g.nodes| + 1
    ensures (forall e :: e in acc ==> e in g.edges) ==> forall e :: e in r ==> e in g.edges
    decreases |g.nodes| - |acc|
  {
    if !Continues(s, prev, guarded, curr, seen) then acc
    else
      var u := prev[curr].value;
      match FindEdge(g.edges, u, curr, g.directed)
      case None => acc
      case Some(e) =>
        if |acc| + 1 > |g.nodes| then [e] + acc
        else Reconstruct(g, s, prev, guarded, u, if guarded then seen + {curr} else seen, [e] + acc)
  }

  /** The path reconstructed for the target `v`. */
  function PathFor(g: Snapshot, s: NodeId, prev: Predecessors, guarded: bool, v: NodeId): seq<Edge> {
    Reconstruct(g, s, prev, guarded, v, {}, [])
  }

  /** The reconstruction loop of one target (`while (previous[curr] != null ...)`). */
  method PathTo(g: Snapshot, s: NodeId, prev: Predecessors, guarded: bool, v: NodeId) returns (path: seq<Edge>)
    ensures path == PathFor(g, s, prev, guarded, v)
  {
    var curr := v;
    var seen: set<NodeId> := {};
    path := [];
    while Continues(s, prev, guarded, curr, seen)
      invariant |path| <= |g.nodes|
      invariant Reconstruct(g, s, prev, guarded, curr, seen, path) == PathFor(g, s, prev, guarded, v)
      decreases |g.nodes| - |path|
    {
      if guarded {
        seen := seen + {curr};
      }
      var prevNode := prev[curr].value;
      var edge := FindEdge(g.edges, prevNode, curr, g.directed);
      if edge.None? {
        break;
      }
      path := [edge.value] + path;
      if |path| > |g.nodes| {
        break;
      }
      curr := prevNode;
    }
  }

  // ---------------------------------------------------------------- what a path is

  /** `e` is the first edge joining `v`'s predecessor `u` to `v`: one step of the walk back. */
  ghost predicate Hop(g: Snapshot, prev: Predecessors, u: NodeId, v: NodeId, e: Edge) {
    v in prev && prev[v] == Some(u) && FindEdge(g.edges, u, v, g.directed) == Some(e)
  }

  /** `p` are the nodes along `es`, each edge one step of the walk back. */
  ghost predicate Trail(g: Snapshot, prev: Predecessors, es: seq<Edge>, p: seq<NodeId>) {
    |p| == |es| + 1 && forall i :: 0 <= i < |es| ==> Hop(g, prev, p[i], p[i + 1], es[i])
  }

  /** The nodes a trail has left behind. */
  ghost function Left(p: seq<NodeId>): set<NodeId> {
    set i | 1 <= i < |p| :: p[i]
  }

  /** Why the walk back ended at `p[0]`: the loop condition failed there, or no edge joins its predecessor to it. */
  ghost predicate Stopped(g: Snapshot, s: NodeId, prev: Predecessors, guarded: bool, p: seq<NodeId>)
    requires |p| >= 1
  {
    !Continues(s, prev, guarded, p[0], Left(p)) || FindEdge(g.edges, prev[p[0]].value, p[0], g.directed).None?
  }

  /** Every node the walk back left behind passed the loop condition. */
  ghost predicate Passed(s: NodeId, guarded: bool, p: seq<NodeId>) {
    forall i :: 1 <= i < |p| ==> p[i] != s && (guarded ==> p[i] !in Left(p[i..]))
  }

  lemma LeftCons(u: NodeId, q: seq<NodeId>)
    requires |q| >= 1
    ensures Left([u] + q) == Left(q) + {q[0]}
  {
    var p := [u] + q;
    forall x | x in Left(p) ensures x in Left(q) + {q[0]} {
      var i :| 1 <= i < |p| && p[i] == x;
      if i >= 2 {
        assert q[i - 1] == x;
      }
    }
    forall x | x in Left(q) + {q[0]} ensures x in Left(p) {
      if x == q[0] {
        assert p[1] == x;
      } else {
        var i :| 1 <= i < |q| && q[i] == x;
        assert p[i + 1] == x;
      }
    }
  }

  /**
   * The reconstruction follows the predecessor table: the nodes of the result
   * form a trail ending in the trail already built, every node left behind
   * passed the loop condition, and unless the length cap cut it short the walk
   * stopped for one of the reasons of the loop.
   */
  lemma {:induction false} ReconstructTrail(g: Snapshot, s: NodeId, prev: Predecessors, guarded: bool,
                                            curr: NodeId, seen: set<NodeId>, acc: seq<Edge>, q: seq<NodeId>)
    returns (p: seq<NodeId>)
    requires |acc| <= |g.nodes| && Trail(g, prev, acc, q) && q[0] == curr
    requires guarded ==> seen == Left(q)
    requires Passed(s, guarded, q)
    ensures var r := Reconstruct(g, s, prev, guarded, curr, seen, acc);
      && Trail(g, prev, r, p) && p[|r|] == q[|acc|] && Passed(s, guarded, p)
      && (|r| <= |g.nodes| ==> Stopped(g, s, prev, guarded, p))
    decreases |g.nodes| - |acc|
  {
    if !Continues(s, prev, guarded, curr, seen) {
      p := q;
    } else {
      var u := prev[curr].value;
      match FindEdge(g.edges, u, curr, g.directed)
      case None =>
        p := q;
      case Some(e) =>
        var q' := [u] + q;
        var acc' := [e] + acc;
        LeftCons(u, q);
        TrailCons(g, prev, acc, q, u, e);
        PassedCons(s, guarded, q, u);
        if |acc| + 1 > |g.nodes| {
          p := q';
        } else {
          var seen' := if guarded then seen + {curr} else seen;
          p := ReconstructTrail(g, s, prev, guarded, u, seen', acc', q');
        }
    }
  }

  /** A trail grows at its front by one step of the walk back. */
  lemma TrailCons(g: Snapshot, prev: Predecessors, acc: seq<Edge>, q: seq<NodeId>, u: NodeId, e: Edge)
    requires Trail(g, prev, acc, q) && Hop(g, prev, u, q[0], e)
    ensures Trail(g, prev, [e] + acc, [u] + q)
  {
    var q', acc' := [u] + q, [e] + acc;
    forall i | 0 <= i < |acc'| ensures Hop(g, prev, q'[i], q'[i + 1], acc'[i]) {
      if i > 0 {
        assert q'[i] == q[i - 1] && q'[i + 1] == q[i] && acc'[i] == acc[i - 1];
      }
    }
  }

  /** Leaving `q[0]` behind keeps the loop-condition record, given that `q[0]` passed it. */
  lemma PassedCons(s: NodeId, guarded: bool, q: seq<NodeId>, u: NodeId)
    requires |q| >= 1 && Passed(s, guarded, q) && q[0] != s && (guarded ==> q[0] !in Left(q))
    ensures Passed(s, guarded, [u] + q)
  {
    var q' := [u] + q;
    forall i | 1 <= i < |q'| ensures q'[i] != s && (guarded ==> q'[i] !in Left(q'[i..])) {
      assert q'[i..] == q[i - 1..];
      if i == 1 {
        assert q[0..] == q;
      }
    }
  }

  /**
   * The path of a target and the nodes along it: a trail from where the walk back
   * stopped to the target, each node left behind being no start, and with the
   * visited guard no node left twice.
   */
  lemma PathTrail(g: Snapshot, s: NodeId, prev: Predecessors, guarded: bool, v: NodeId) returns (p: seq<NodeId>)
    ensures var r := PathFor(g, s, prev, guarded, v);
      && Trail(g, prev, r, p) && p[|r|] == v && Passed(s, guarded, p)
      && (|r| <= |g.nodes| ==> Stopped(g, s, prev, guarded, p))
  {
    assert Left([v]) == {};
    p := ReconstructTrail(g, s, prev, guarded, v, {}, [], [v]);
  }

  /**
   * With the visited guard the length cap never fires when the predecessor table
   * only knows existing nodes: the nodes left behind are distinct existing nodes.
   */
  lemma GuardedBound(g: Snapshot, s: NodeId, prev: Predecessors, v: NodeId)
    requires prev.Keys <= NodeSet(g)
    ensures |PathFor(g, s, prev, true, v)| <= |NodeSet(g)| <= |g.nodes|
  {
    var r := PathFor(g, s, prev, true, v);
    var p := PathTrail(g, s, prev, true, v);
    var rest := p[1..];
    forall i, j | 0 <= i < j < |rest| ensures rest[i] != rest[j] {
      assert rest[j] == p[j + 1] && p[j + 1] in Left(p[i + 1..]) by {
        assert p[i + 1..][j - i] == p[j + 1];
      }
    }
    forall x | x in rest ensures x in NodeSet(g) {
      var i :| 0 <= i < |rest| && rest[i] == x;
      assert Hop(g, prev, p[i], p[i + 1], r[i]);
    }
    DistinctLength(rest, NodeSet(g));
    SubsetSize(NodeSet(g), set i | 0 <= i < |g.nodes| :: g.nodes[i]);
    assert forall x :: x in NodeSet(g) ==> x in set i | 0 <= i < |g.nodes| :: g.nodes[i];
    SetOfIndices(g.nodes);
  }

  /** The ids of a list are at most as many as its entries. */
  lemma {:induction false} SetOfIndices(s: seq<NodeId>)
    ensures |set i | 0 <= i < |s| :: s[i]| <= |s|
  {
    if s != [] {
      var t := s[..|s| - 1];
      SetOfIndices(t);
      assert (set i | 0 <= i < |s| :: s[i]) == (set i | 0 <= i < |t| :: t[i]) + {s[|s| - 1]};
    }
  }

  // ---------------------------------------------------------------- emission

  /** The shortest-path edge steps of a path (`path.forEach(edgeInPath => recordStep(...))`). */
  function Marks(path: seq<Edge>): (r: seq<Step>)
    ensures |r| == |path| && forall i :: 0 <= i < |path| ==> r[i] == EdgeStep(path[i], true)
  {
    if path == [] then [] else Marks(path[..|path| - 1]) + [EdgeStep(path[|path| - 1], true)]
  }

  /**
   * The steps emitted for one node: none when its distance is Infinity (or it
   * has none) or, for Bellman-Ford, when it is not in `within` (the reachable
   * set); otherwise the marks of its reconstructed path.
   */
  function NodeMarks(g: Snapshot, s: NodeId, dist: Distances, prev: Predecessors, guarded: bool,
                     within: set<NodeId>, v: NodeId): seq<Step> {
    if v in dist && dist[v].Fin? && v in within then Marks(PathFor(g, s, prev, guarded, v)) else []
  }

  /** The steps emitted for a list of nodes, in list order. */
  function AllMarks(g: Snapshot, s: NodeId, dist: Distances, prev: Predecessors, guarded: bool,
                    within: set<NodeId>, nodes: seq<NodeId>): seq<Step>
    decreases |nodes|
  {
    if nodes == [] then []
    else
      AllMarks(g, s, dist, prev, guarded, within, nodes[..|nodes| - 1])
      + NodeMarks(g, s, dist, prev, guarded, within, nodes[|nodes| - 1])
  }

  /** The emission loop (`workerNodes.forEach(node => ...)`). */
  method EmitPaths(g: Snapshot, s: NodeId, dist: Distances, prev: Predecessors, guarded: bool, within: set<NodeId>)
    returns (steps: seq<Step>)
    ensures steps == AllMarks(g, s, dist, prev, guarded, within, g.nodes)
  {
    steps := [];
    for i := 0 to |g.nodes|
      invariant steps == AllMarks(g, s, dist, prev, guarded, within, g.nodes[..i])
    {
      var v := g.nodes[i];
      AllMarksSnoc(g, s, dist, prev, guarded, within, g.nodes, i);
      if v in dist && dist[v].Fin? && v in within {
        var path := PathTo(g, s, prev, guarded, v);
        steps := MarkPath(steps, path);
      }
    }
    assert g.nodes[..|g.nodes|] == g.nodes;
  }

  lemma AllMarksSnoc(g: Snapshot, s: NodeId, dist: Distances, prev: Predecessors, guarded: bool,
                     within: set<NodeId>, nodes: seq<NodeId>, i: nat)
    requires i < |nodes|
    ensures AllMarks(g, s, dist, prev, guarded, within, nodes[..i + 1])
         == AllMarks(g, s, dist, prev, guarded, within, nodes[..i]) + NodeMarks(g, s, dist, prev, guarded, within, nodes[i])
  {
    assert nodes[..i + 1][..i] == nodes[..i];
  }

  /** Records the edges of one path (`path.forEach(...)`). */
  method MarkPath(steps: seq<Step>, path: seq<Edge>) returns (steps': seq<Step>)
    ensures steps' == steps + Marks(path)
  {
    steps' := steps;
    for j := 0 to |path|
      invariant steps' == steps + Marks(path[..j])
    {
      assert path[..j + 1][..j] == path[..j];
      steps' := steps' + [EdgeStep(path[j], true)];
    }
    assert path[..|path|] == path;
  }

  /**
   * The emitted steps are shortest-path edge steps over existing edges, and at
   * most |nodes| + 1 of them come from any one target.
   */
  lemma MarksFacts(g: Snapshot, s: NodeId, dist: Distances, prev: Predecessors, guarded: bool,
                   within: set<NodeId>, nodes: seq<NodeId>)
    ensures PathSteps(g, AllMarks(g, s, dist, prev, guarded, within, nodes))
    ensures forall v :: |NodeMarks(g, s, dist, prev, guarded, within, v)| <= |g.nodes| + 1
    decreases |nodes|
  {
    forall v ensures |NodeMarks(g, s, dist, prev, guarded, within, v)| <= |g.nodes| + 1 {
      var r := PathFor(g, s, prev, guarded, v);
    }
    if nodes != [] {
      MarksFacts(g, s, dist, prev, guarded, within, nodes[..|nodes| - 1]);
      var v := nodes[|nodes| - 1];
      var path := PathFor(g, s, prev, guarded, v);
      assert forall st :: st in Marks(path) ==> st.EdgeStep? && st.edge in path && st.isShortestPath;
    }
  }
}
