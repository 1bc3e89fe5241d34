/**
 * The graph as the algorithm engine sees it: a value copy of the node ids, the
 * edges (identity triple from, to, weight) and the direction flag, together with
 * the shared neighbour rule of the four algorithms and the notion of a walk
 * that their reachability statements use.
 */
module Graph {
  import opened Sequences

  datatype Option<T> = None | Some(value: T)

  type NodeId = int

  datatype Edge = Edge(from: NodeId, to: NodeId, weight: int)

  /** The snapshot posted to the worker: node ids in list order, edges in list order. */
  datatype Snapshot = Snapshot(nodes: seq<NodeId>, edges: seq<Edge>, directed: bool)

  function NodeSet(g: Snapshot): (r: set<NodeId>)
    ensures forall v :: v in r <==> v in g.nodes
  {
    set v | v in g.nodes
  }

  /** `e` is followed away from `u`: an outgoing edge, or, when undirected, an incoming one. */
  predicate Incident(e: Edge, u: NodeId, directed: bool) {
    e.from == u || (!directed && e.to == u)
  }

  /** The id the neighbour lists map an incident edge to (`edge.from === u ? edge.to : edge.from`). */
  function OtherEnd(e: Edge, u: NodeId): NodeId {
    if e.from == u then e.to else e.from
  }

  /** `e` joins `u` to `v` under the direction rules (the predicate of the `find` calls). */
  predicate Connects(e: Edge, u: NodeId, v: NodeId, directed: bool) {
    (e.from == u && e.to == v) || (!directed && e.to == u && e.from == v)
  }

  /** First edge of the list that joins `u` to `v` (`workerEdges.find(...)`). */
  function FindEdge(edges: seq<Edge>, u: NodeId, v: NodeId, directed: bool): (r: Option<Edge>)
    ensures r.Some? ==> r.value in edges && Connects(r.value, u, v, directed)
    ensures r.None? <==> forall e :: e in edges ==> !Connects(e, u, v, directed)
  {
    if edges == [] then None
    else if Connects(edges[0], u, v, directed) then Some(edges[0])
    else FindEdge(edges[1..], u, v, directed)
  }

  /** An incident edge followed to its neighbour, both directions of the rule mapped to one id. */
  lemma IncidentConnects(e: Edge, u: NodeId, directed: bool)
    requires Incident(e, u, directed)
    ensures Connects(e, u, OtherEnd(e, u), directed)
  {
  }

  /** A candidate neighbour: where an incident edge leads, and that edge. */
  datatype Neighbour = Neighbour(id: NodeId, edge: Edge)

  /** The candidate neighbours of `u` in edge order: the filter-then-map of the neighbour rule. */
  function Candidates(edges: seq<Edge>, u: NodeId, directed: bool): (r: seq<Neighbour>)
    ensures forall nb :: nb in r <==> nb.edge in edges && Incident(nb.edge, u, directed) && nb.id == OtherEnd(nb.edge, u)
  {
    if edges == [] then []
    else
      (if Incident(edges[0], u, directed) then [Neighbour(OtherEnd(edges[0], u), edges[0])] else [])
      + Candidates(edges[1..], u, directed)
  }

  function Ids(s: seq<Neighbour>): (r: seq<NodeId>)
    ensures |r| == |s|
    ensures forall i :: 0 <= i < |s| ==> r[i] == s[i].id
  {
    if s == [] then [] else [s[0].id] + Ids(s[1..])
  }

  lemma IdsMembers(s: seq<Neighbour>, v: NodeId)
    ensures v in Ids(s) <==> exists nb :: nb in s && nb.id == v
  {
    if v in Ids(s) {
      var i :| 0 <= i < |s| && Ids(s)[i] == v;
      assert s[i] in s;
    }
  }

  /**
   * The neighbours of `u` in the graph, as a set: the other ends of the incident
   * edges that are existing nodes.  An independent statement of the rule that the
   * sorted lists below are proved to agree with.
   */
  ghost function NeighbourSet(g: Snapshot, u: NodeId): set<NodeId> {
    set e | e in g.edges && Incident(e, u, g.directed) && OtherEnd(e, u) in g.nodes :: OtherEnd(e, u)
  }

  lemma NeighbourSetNodes(g: Snapshot, u: NodeId)
    ensures NeighbourSet(g, u) <= NodeSet(g)
  {
  }

  /** The records whose id is in `allowed` (the `.filter` on node existence and on `visited`). */
  function KeepIds(s: seq<Neighbour>, allowed: set<NodeId>): (r: seq<Neighbour>)
    ensures forall nb :: nb in r <==> nb in s && nb.id in allowed
  {
    Filter(s, (nb: Neighbour) => nb.id in allowed)
  }

  function IdKey(v: NodeId): int { v }

  function NeighbourKey(nb: Neighbour): int { nb.id }

  /** The sorted neighbour ids BFS and DFS iterate over (not yet visited, existing nodes). */
  function UnvisitedNeighbours(g: Snapshot, u: NodeId, visited: set<NodeId>): seq<NodeId> {
    SortBy(Ids(KeepIds(Candidates(g.edges, u, g.directed), NodeSet(g) - visited)), IdKey)
  }

  /** The neighbour records Dijkstra relaxes, sorted by id, edge order kept among equal ids. */
  function NeighbourRecords(g: Snapshot, u: NodeId): seq<Neighbour> {
    SortBy(KeepIds(Candidates(g.edges, u, g.directed), NodeSet(g)), NeighbourKey)
  }

  /** The BFS/DFS list holds exactly the unvisited neighbours, in ascending order. */
  lemma UnvisitedNeighboursMembers(g: Snapshot, u: NodeId, visited: set<NodeId>)
    ensures SortedBy(UnvisitedNeighbours(g, u, visited), IdKey)
    ensures forall v :: v in UnvisitedNeighbours(g, u, visited) <==> v in NeighbourSet(g, u) && v !in visited
  {
    var kept := KeepIds(Candidates(g.edges, u, g.directed), NodeSet(g) - visited);
    forall v ensures v in UnvisitedNeighbours(g, u, visited) <==> v in NeighbourSet(g, u) && v !in visited {
      SortByMembers(Ids(kept), IdKey, v);
      IdsMembers(kept, v);
      if v in NeighbourSet(g, u) && v !in visited {
        var e :| e in g.edges && Incident(e, u, g.directed) && OtherEnd(e, u) in g.nodes && OtherEnd(e, u) == v;
        assert Neighbour(v, e) in kept;
      }
    }
  }

  /** Every record `Neighbour(v, e)` Dijkstra sees has `v` an existing node joined to `u` by `e`. */
  lemma NeighbourRecordsMembers(g: Snapshot, u: NodeId, nb: Neighbour)
    ensures nb in NeighbourRecords(g, u) <==>
      nb.edge in g.edges && Incident(nb.edge, u, g.directed) && nb.id == OtherEnd(nb.edge, u) && nb.id in g.nodes
  {
    SortByMembers(KeepIds(Candidates(g.edges, u, g.directed), NodeSet(g)), NeighbourKey, nb);
  }

  /** Every neighbour in the set is the id of some record of the Dijkstra list. */
  lemma NeighbourSetHasRecord(g: Snapshot, u: NodeId, v: NodeId) returns (nb: Neighbour)
    requires v in NeighbourSet(g, u)
    ensures nb in NeighbourRecords(g, u) && nb.id == v
  {
    var e :| e in g.edges && Incident(e, u, g.directed) && OtherEnd(e, u) in g.nodes && OtherEnd(e, u) == v;
    nb := Neighbour(v, e);
    NeighbourRecordsMembers(g, u, nb);
  }

  // ---------------------------------------------------------------- walks

  /** A walk: consecutive ids are neighbours under the rule above. */
  ghost predicate IsWalk(g: Snapshot, p: seq<NodeId>) {
    |p| > 0 && forall i :: 0 <= i < |p| - 1 ==> p[i + 1] in NeighbourSet(g, p[i])
  }

  ghost predicate Reachable(g: Snapshot, s: NodeId, v: NodeId) {
    exists p :: IsWalk(g, p) && p[0] == s && p[|p| - 1] == v
  }

  /** `S` contains every neighbour of each of its members. */
  ghost predicate Closed(g: Snapshot, S: set<NodeId>) {
    forall x :: x in S ==> NeighbourSet(g, x) <= S
  }

  lemma ReachableSelf(g: Snapshot, s: NodeId)
    ensures Reachable(g, s, s)
  {
    assert IsWalk(g, [s]);
  }

  lemma ReachableStep(g: Snapshot, s: NodeId, u: NodeId, v: NodeId)
    requires Reachable(g, s, u) && v in NeighbourSet(g, u)
    ensures Reachable(g, s, v)
  {
    var p :| IsWalk(g, p) && p[0] == s && p[|p| - 1] == u;
    var q := p + [v];
    assert forall i :: 0 <= i < |q| - 1 ==> q[i + 1] in NeighbourSet(g, q[i]) by {
      forall i | 0 <= i < |q| - 1 ensures q[i + 1] in NeighbourSet(g, q[i]) {
        if i < |p| - 1 { assert q[i] == p[i] && q[i + 1] == p[i + 1]; }
      }
    }
    assert IsWalk(g, q);
  }

  /** A walk extended by a neighbour of its last id is a walk. */
  lemma WalkExtend(g: Snapshot, p: seq<NodeId>, v: NodeId)
    requires IsWalk(g, p) && v in NeighbourSet(g, p[|p| - 1])
    ensures IsWalk(g, p + [v])
  {
    var q := p + [v];
    forall i | 0 <= i < |q| - 1 ensures q[i + 1] in NeighbourSet(g, q[i]) {
      if i < |p| - 1 { assert q[i] == p[i] && q[i + 1] == p[i + 1]; }
    }
  }

  /** A closed set that holds the start holds everything reachable from it. */
  lemma ClosedHoldsReachable(g: Snapshot, s: NodeId, S: set<NodeId>, v: NodeId)
    requires s in S && Closed(g, S) && Reachable(g, s, v)
    ensures v in S
  {
    var p :| IsWalk(g, p) && p[0] == s && p[|p| - 1] == v;
    WalkStaysIn(g, p, S, |p| - 1);
  }

  /** The nodes reachable from `s`: the least closed set holding `s`. */
  ghost function ReachableSet(g: Snapshot, s: NodeId): set<NodeId> {
    set v | v in g.nodes && Reachable(g, s, v)
  }

  lemma ReachableSetClosed(g: Snapshot, s: NodeId)
    requires s in g.nodes
    ensures s in ReachableSet(g, s) && Closed(g, ReachableSet(g, s))
  {
    ReachableSelf(g, s);
    forall x, y | x in ReachableSet(g, s) && y in NeighbourSet(g, x) ensures y in ReachableSet(g, s) {
      ReachableStep(g, s, x, y);
    }
  }

  lemma {:induction false} WalkStaysIn(g: Snapshot, p: seq<NodeId>, S: set<NodeId>, k: nat)
    requires IsWalk(g, p) && p[0] in S && Closed(g, S) && k < |p|
    ensures p[k] in S
  {
    if k > 0 {
      WalkStaysIn(g, p, S, k - 1);
      assert p[k] in NeighbourSet(g, p[k - 1]);
    }
  }

  // ---------------------------------------------------------------- weighted walks

  /** A walk through existing nodes `p` along edges `es`, the edge `es[i]` joining `p[i]` to `p[i + 1]`. */
  ghost predicate WeightedWalk(g: Snapshot, p: seq<NodeId>, es: seq<Edge>) {
    && |p| == |es| + 1
    && (forall i :: 0 <= i < |p| ==> p[i] in g.nodes)
    && (forall i :: 0 <= i < |es| ==> es[i] in g.edges && Connects(es[i], p[i], p[i + 1], g.directed))
  }

  /** The total weight of a sequence of edges. */
  function Weight(es: seq<Edge>): int {
    if es == [] then 0 else Weight(es[..|es| - 1]) + es[|es| - 1].weight
  }

  /** Some walk from `s` to `v` weighs exactly `d`. */
  ghost predicate Achieves(g: Snapshot, s: NodeId, v: NodeId, d: int) {
    exists p, es :: WeightedWalk(g, p, es) && p[0] == s && p[|p| - 1] == v && Weight(es) == d
  }

  /** No walk from `s` to `v` weighs less than `d`. */
  ghost predicate LowerBound(g: Snapshot, s: NodeId, v: NodeId, d: int) {
    forall p, es :: WeightedWalk(g, p, es) && p[0] == s && p[|p| - 1] == v ==> d <= Weight(es)
  }

  /** `d` is the weight of a lightest walk from `s` to `v`. */
  ghost predicate Shortest(g: Snapshot, s: NodeId, v: NodeId, d: int) {
    Achieves(g, s, v, d) && LowerBound(g, s, v, d)
  }

  lemma AchievesStart(g: Snapshot, s: NodeId)
    requires s in g.nodes
    ensures Achieves(g, s, s, 0)
  {
    assert WeightedWalk(g, [s], []);
  }

  /** A walk that achieves `d` at `u`, extended by an edge from `u` to `v`, achieves `d` plus its weight at `v`. */
  lemma AchievesStep(g: Snapshot, s: NodeId, u: NodeId, d: int, e: Edge, v: NodeId)
    requires Achieves(g, s, u, d) && e in g.edges && Connects(e, u, v, g.directed) && v in g.nodes
    ensures Achieves(g, s, v, d + e.weight)
  {
    var p, es :| WeightedWalk(g, p, es) && p[0] == s && p[|p| - 1] == u && Weight(es) == d;
    var p', es' := p + [v], es + [e];
    assert es'[..|es'| - 1] == es;
    forall i | 0 <= i < |es'| ensures es'[i] in g.edges && Connects(es'[i], p'[i], p'[i + 1], g.directed) {
      if i < |es| { assert es'[i] == es[i] && p'[i] == p[i] && p'[i + 1] == p[i + 1]; }
    }
    assert WeightedWalk(g, p', es');
  }

  /** An edge that connects `u` to `v` is followed away from `u` and leads to `v` under the neighbour rule. */
  lemma ConnectsIncident(e: Edge, u: NodeId, v: NodeId, directed: bool)
    requires Connects(e, u, v, directed)
    ensures Incident(e, u, directed) && OtherEnd(e, u) == v
  {
  }

  /** The nodes of a weighted walk form a walk: a node at a finite distance is reachable. */
  lemma AchievesReachable(g: Snapshot, s: NodeId, v: NodeId, d: int)
    requires Achieves(g, s, v, d)
    ensures Reachable(g, s, v)
  {
    var p, es :| WeightedWalk(g, p, es) && p[0] == s && p[|p| - 1] == v && Weight(es) == d;
    forall i | 0 <= i < |p| - 1 ensures p[i + 1] in NeighbourSet(g, p[i]) {
      ConnectsIncident(es[i], p[i], p[i + 1], g.directed);
    }
    assert IsWalk(g, p);
  }

  /** A prefix of a weighted walk is a weighted walk. */
  lemma WalkPrefix(g: Snapshot, p: seq<NodeId>, es: seq<Edge>, j: nat)
    requires WeightedWalk(g, p, es) && j < |p|
    ensures WeightedWalk(g, p[..j + 1], es[..j])
  {
  }

  /** Under non-negative weights a prefix weighs no more than the whole. */
  lemma {:induction false} WeightPrefix(g: Snapshot, es: seq<Edge>, j: nat)
    requires NonNegative(g) && forall e :: e in es ==> e in g.edges
    requires j <= |es|
    ensures Weight(es[..j]) <= Weight(es)
    decreases |es| - j
  {
    if j < |es| {
      WeightPrefix(g, es, j + 1);
      assert es[..j + 1][..j] == es[..j];
      assert es[j] in es;
    } else {
      assert es[..j] == es;
    }
  }

  /** The weight of two edge sequences one after the other is the sum of their weights. */
  lemma {:induction false} WeightAppend(a: seq<Edge>, b: seq<Edge>)
    ensures Weight(a + b) == Weight(a) + Weight(b)
    decreases |b|
  {
    if b == [] {
      assert a + b == a;
    } else {
      var b' := b[..|b| - 1];
      assert (a + b)[..|a + b| - 1] == a + b';
      assert (a + b)[|a + b| - 1] == b[|b| - 1];
      WeightAppend(a, b');
    }
  }

  /** A weighted walk followed by one that starts where it ends is a weighted walk. */
  lemma WalkConcat(g: Snapshot, p: seq<NodeId>, es: seq<Edge>, q: seq<NodeId>, fs: seq<Edge>)
    requires WeightedWalk(g, p, es) && WeightedWalk(g, q, fs) && p[|es|] == q[0]
    ensures WeightedWalk(g, p + q[1..], es + fs) && Weight(es + fs) == Weight(es) + Weight(fs)
  {
    var r, rs := p + q[1..], es + fs;
    forall i | 0 <= i < |r| ensures r[i] in g.nodes {
      if i >= |p| { assert r[i] == q[i - |es|]; }
    }
    forall i | 0 <= i < |rs| ensures rs[i] in g.edges && Connects(rs[i], r[i], r[i + 1], g.directed) {
      if i < |es| {
        assert rs[i] == es[i] && r[i] == p[i] && r[i + 1] == p[i + 1];
      } else {
        assert rs[i] == fs[i - |es|] && r[i] == q[i - |es|] && r[i + 1] == q[i - |es| + 1];
      }
    }
    WeightAppend(es, fs);
  }

  /**
   * A weighted walk that passes `p[i]` again at `p[j]` is the walk with the
   * closed walk between the two cut out, plus that closed walk.
   */
  lemma Splice(g: Snapshot, p: seq<NodeId>, es: seq<Edge>, i: nat, j: nat) returns (p': seq<NodeId>, es': seq<Edge>)
    requires WeightedWalk(g, p, es) && i < j < |p| && p[i] == p[j]
    ensures WeightedWalk(g, p', es') && p'[0] == p[0] && p'[|es'|] == p[|es|] && |es'| == |es| - (j - i)
    ensures WeightedWalk(g, p[i..j + 1], es[i..j]) && p[i..j + 1][0] == p[i..j + 1][j - i]
    ensures Weight(es) == Weight(es') + Weight(es[i..j])
  {
    p', es' := p[..i + 1] + p[j + 1..], es[..i] + es[j..];
    forall k | 0 <= k < |p'| ensures p'[k] in g.nodes {
      if k <= i { assert p'[k] == p[k]; } else { assert p'[k] == p[k + j - i]; }
    }
    forall k | 0 <= k < |es'| ensures es'[k] in g.edges && Connects(es'[k], p'[k], p'[k + 1], g.directed) {
      if k < i {
        assert es'[k] == es[k] && p'[k] == p[k] && p'[k + 1] == p[k + 1];
      } else {
        assert es'[k] == es[k + j - i] && p'[k] == p[k + j - i] && p'[k + 1] == p[k + j - i + 1];
      }
    }
    if |es'| > i { assert p'[|es'|] == p[|es|]; } else { assert p'[|es'|] == p[i]; }
    var c, cs := p[i..j + 1], es[i..j];
    forall k | 0 <= k < |cs| ensures cs[k] in g.edges && Connects(cs[k], c[k], c[k + 1], g.directed) {
      assert cs[k] == es[i + k] && c[k] == p[i + k] && c[k + 1] == p[i + k + 1];
    }
    forall k | 0 <= k < |c| ensures c[k] in g.nodes {
      assert c[k] == p[i + k];
    }
    assert es == es[..i] + es[i..j] + es[j..];
    WeightAppend(es[..i] + es[i..j], es[j..]);
    WeightAppend(es[..i], es[i..j]);
    WeightAppend(es[..i], es[j..]);
  }

  /** A walk from an existing node is a weighted walk along some edges. */
  lemma {:induction false} WeighWalk(g: Snapshot, p: seq<NodeId>) returns (es: seq<Edge>)
    requires IsWalk(g, p) && p[0] in g.nodes
    ensures WeightedWalk(g, p, es)
    decreases |p|
  {
    if |p| == 1 {
      es := [];
    } else {
      var n := |p|;
      var q := p[..n - 1];
      forall i | 0 <= i < |q| - 1 ensures q[i + 1] in NeighbourSet(g, q[i]) {
        assert q[i] == p[i] && q[i + 1] == p[i + 1];
      }
      var fs := WeighWalk(g, q);
      assert p[n - 1] in NeighbourSet(g, p[n - 2]);
      var e :| e in g.edges && Incident(e, p[n - 2], g.directed) && OtherEnd(e, p[n - 2]) in g.nodes
               && OtherEnd(e, p[n - 2]) == p[n - 1];
      IncidentConnects(e, p[n - 2], g.directed);
      es := fs + [e];
      forall i | 0 <= i < |es| ensures es[i] in g.edges && Connects(es[i], p[i], p[i + 1], g.directed) {
        if i < |fs| { assert es[i] == fs[i] && p[i] == q[i] && p[i + 1] == q[i + 1]; }
      }
      forall i | 0 <= i < |p| ensures p[i] in g.nodes {
        if i < n - 1 { assert p[i] == q[i]; }
      }
    }
  }

  // ---------------------------------------------------------------- distances

  /** A tentative distance: `Infinity` or a finite value. */
  datatype Dist = Inf | Fin(d: int)

  /** `a < b` for a finite `a` and a tentative `b` (anything is below Infinity). */
  predicate Below(a: int, b: Dist) {
    b.Inf? || a < b.d
  }

  /** All edge weights are non-negative: the guard `runAlgorithm` applies before Dijkstra. */
  predicate NonNegative(g: Snapshot) {
    forall e :: e in g.edges ==> e.weight >= 0
  }
}
