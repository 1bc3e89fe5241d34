/**
 * What the canvas shows of a trace: `applyVisualStep` on the node and edge
 * records and the three highlight sets, the prefix replay `stepThrough` does
 * from a cleared canvas, and the result summary of
 * `displayAlgorithmCompletion` (the de-duplicated traversal order for BFS and
 * DFS, the guarded path reconstruction for Dijkstra and Bellman-Ford).
 *
 * Edge keys are the strings `min-max-weight`; with integer ids and weights and
 * `min <= max` the string determines the triple, so a datatype of the three
 * numbers stands for it.
 */
module Playback {
  import opened Sequences
  import opened Graph
  import opened Trace
  import opened Editor

  /** `${Math.min(from, to)}-${Math.max(from, to)}-${weight}`. */
  datatype EdgeKey = EdgeKey(lo: NodeId, hi: NodeId, weight: int)

  function KeyOf(e: EdgeRec): EdgeKey {
    if e.from <= e.to then EdgeKey(e.from, e.to, e.weight) else EdgeKey(e.to, e.from, e.weight)
  }

  /** `highlightedNodes`, `highlightedEdges` and `shortestPathEdges` of `visualizationState`. */
  datatype Marks = Marks(nodes: set<NodeId>, edges: set<EdgeKey>, pathEdges: set<EdgeKey>)

  /** The records and the highlight sets that playback changes. */
  datatype Canvas = Canvas(nodes: seq<NodeRec>, edges: seq<EdgeRec>, marks: Marks)

  /** The step types that highlight a node. */
  predicate NodeLike(st: Step) { st.NodeStep? || st.Visit? || st.Backtrack? }

  /** The edge `applyVisualStep` looks for: the same weight and ends, either way round when undirected. */
  predicate Matches(f: EdgeRec, e: Edge, directed: bool) {
    f.weight == e.weight && ((f.from == e.from && f.to == e.to) || (!directed && f.from == e.to && f.to == e.from))
  }

  function FirstNode(nodes: seq<NodeRec>, id: NodeId): int {
    FindFirst(nodes, (n: NodeRec) => n.id == id)
  }

  function FirstMatch(edges: seq<EdgeRec>, e: Edge, directed: bool): int {
    FindFirst(edges, (f: EdgeRec) => Matches(f, e, directed))
  }

  /** A record without its display flags: what playback never changes. */
  function Bare(n: NodeRec): NodeRec { n.(highlighted := false, isStart := false) }

  function BareEdge(e: EdgeRec): EdgeRec { e.(highlighted := false, shortestPath := false) }

  /**
   * Playback only ever raises flags and adds to the highlight sets, and keeps
   * everything but the flags.
   */
  ghost predicate Grows(c: Canvas, r: Canvas) {
    Map(r.nodes, Bare) == Map(c.nodes, Bare) && Map(r.edges, BareEdge) == Map(c.edges, BareEdge)
    && (forall i :: 0 <= i < |c.nodes| ==>
          (c.nodes[i].highlighted ==> r.nodes[i].highlighted) && (c.nodes[i].isStart ==> r.nodes[i].isStart))
    && (forall i :: 0 <= i < |c.edges| ==>
          (c.edges[i].highlighted ==> r.edges[i].highlighted) && (c.edges[i].shortestPath ==> r.edges[i].shortestPath))
    && c.marks.nodes <= r.marks.nodes && c.marks.edges <= r.marks.edges && c.marks.pathEdges <= r.marks.pathEdges
  }

  lemma BareIds(a: seq<NodeRec>, b: seq<NodeRec>)
    requires Map(a, Bare) == Map(b, Bare)
    ensures Editor.Ids(a) == Editor.Ids(b)
  {
    assert forall i :: 0 <= i < |a| ==> Bare(a[i]) == Bare(b[i]);
  }

  lemma BareKeys(a: seq<EdgeRec>, b: seq<EdgeRec>)
    requires Map(a, BareEdge) == Map(b, BareEdge)
    ensures Keys(a) == Keys(b)
  {
    assert forall i :: 0 <= i < |a| ==> BareEdge(a[i]) == BareEdge(b[i]);
  }

  /**
   * `applyVisualStep(step, stepping)`: a node, visit or backtrack step
   * highlights the first node with its id (and marks it as the start when it
   * is); an edge step highlights the first matching edge and, for a
   * shortest-path step, marks it as such; the sets grow only when stepping.
   */
  function ApplyStep(c: Canvas, st: Step, stepping: bool, directed: bool, start: Option<NodeId>): (r: Canvas)
    ensures Grows(c, r)
    ensures !stepping ==> r.marks == c.marks
  {
    if NodeLike(st) then
      var k := FirstNode(c.nodes, st.id);
      if k == -1 then c
      else
        var n := c.nodes[k];
        Canvas(c.nodes[k := n.(highlighted := true, isStart := n.isStart || Some(n.id) == start)], c.edges,
               if stepping then c.marks.(nodes := c.marks.nodes + {n.id}) else c.marks)
    else if st.EdgeStep? then
      var k := FirstMatch(c.edges, st.edge, directed);
      if k == -1 then c
      else
        var f := c.edges[k];
        Canvas(c.nodes, c.edges[k := f.(highlighted := true, shortestPath := f.shortestPath || st.isShortestPath)],
               if !stepping then c.marks
               else c.marks.(edges := c.marks.edges + {KeyOf(f)},
                             pathEdges := if st.isShortestPath then c.marks.pathEdges + {KeyOf(f)} else c.marks.pathEdges))
    else c
  }

  /**
   * Applying a step again while animating changes nothing more: the record it
   * finds is the same, and its flags are already raised.
   */
  lemma ApplyTwice(c: Canvas, st: Step, directed: bool, start: Option<NodeId>)
    ensures var r := ApplyStep(c, st, false, directed, start); ApplyStep(r, st, false, directed, start) == r
  {
    var r := ApplyStep(c, st, false, directed, start);
    if NodeLike(st) {
      FirstNodeBare(r.nodes, c.nodes, st.id);
    } else if st.EdgeStep? {
      FirstMatchBare(r.edges, c.edges, st.edge, directed);
    }
  }

  /** `nodes.forEach(n => { n.isHighlighted = false; n.isStart = (n.id === start); })`. */
  function ResetNodes(nodes: seq<NodeRec>, start: Option<NodeId>): seq<NodeRec> {
    Map(nodes, (n: NodeRec) => n.(highlighted := false, isStart := Some(n.id) == start))
  }

  /** `edges.forEach(e => { e.isHighlighted = false; e.isShortestPath = false; })`. */
  function ResetEdges(edges: seq<EdgeRec>): seq<EdgeRec> { Map(edges, BareEdge) }

  /** The canvas `stepThrough` replays on: flags reset (the start flag set on the start node) and empty sets. */
  function Cleared(nodes: seq<NodeRec>, edges: seq<EdgeRec>, start: Option<NodeId>): Canvas {
    Canvas(ResetNodes(nodes, start), ResetEdges(edges), Marks({}, {}, {}))
  }

  /** The cleared canvas depends on nothing the flags hold: stepping does not see earlier highlights. */
  lemma ClearedIgnoresFlags(n1: seq<NodeRec>, e1: seq<EdgeRec>, n2: seq<NodeRec>, e2: seq<EdgeRec>, start: Option<NodeId>)
    requires Map(n1, Bare) == Map(n2, Bare) && Map(e1, BareEdge) == Map(e2, BareEdge)
    ensures Cleared(n1, e1, start) == Cleared(n2, e2, start)
  {
    assert forall i :: 0 <= i < |n1| ==> Bare(n1[i]) == Bare(n2[i]);
    assert forall i :: 0 <= i < |e1| ==> BareEdge(e1[i]) == BareEdge(e2[i]);
  }

  /** The steps applied in order, left to right. */
  function Replay(c: Canvas, steps: seq<Step>, stepping: bool, directed: bool, start: Option<NodeId>): (r: Canvas)
    decreases |steps|
  {
    if steps == [] then c
    else ApplyStep(Replay(c, steps[..|steps| - 1], stepping, directed, start), steps[|steps| - 1], stepping, directed, start)
  }

  lemma ReplaySnoc(c: Canvas, steps: seq<Step>, k: nat, stepping: bool, directed: bool, start: Option<NodeId>)
    requires k < |steps|
    ensures Replay(c, steps[..k + 1], stepping, directed, start)
            == ApplyStep(Replay(c, steps[..k], stepping, directed, start), steps[k], stepping, directed, start)
  {
    assert steps[..k + 1][..k] == steps[..k];
  }

  /** Animating (no stepping) raises the same flags as stepping, and leaves the sets alone. */
  lemma {:induction false} ReplayQuietly(c: Canvas, steps: seq<Step>, directed: bool, start: Option<NodeId>)
    ensures Replay(c, steps, false, directed, start) == Replay(c, steps, true, directed, start).(marks := c.marks)
    decreases |steps|
  {
    if steps != [] {
      var init := steps[..|steps| - 1];
      var st := steps[|steps| - 1];
      ReplayQuietly(c, init, directed, start);
      var q := Replay(c, init, false, directed, start);
      var l := Replay(c, init, true, directed, start);
      assert q == l.(marks := c.marks);
      ApplyQuietly(l, st, directed, start);
    }
  }

  lemma ApplyQuietly(c: Canvas, st: Step, directed: bool, start: Option<NodeId>)
    ensures ApplyStep(c, st, false, directed, start).(marks := c.marks) == ApplyStep(c, st, true, directed, start).(marks := c.marks)
    ensures forall m :: ApplyStep(c.(marks := m), st, false, directed, start) == ApplyStep(c, st, false, directed, start).(marks := m)
  {
  }

  /** Replays keep everything but the flags. */
  lemma {:induction false} ReplayBare(c: Canvas, steps: seq<Step>, stepping: bool, directed: bool, start: Option<NodeId>)
    ensures Grows(c, Replay(c, steps, stepping, directed, start))
    decreases |steps|
  {
    if steps != [] {
      ReplayBare(c, steps[..|steps| - 1], stepping, directed, start);
    }
  }

  // ---------------------------------------------------------------- what a replay shows

  /** The ids of the node-like steps that name a node of `nodes`. */
  ghost function NamedNodes(steps: seq<Step>, nodes: seq<NodeRec>): set<NodeId> {
    set st | st in steps && NodeLike(st) && st.id in IdSet(nodes) :: st.id
  }

  /** The edge at `k` is the first match of an edge step (of a shortest-path step when `path`). */
  ghost predicate Hit(steps: seq<Step>, edges: seq<EdgeRec>, directed: bool, k: int, path: bool) {
    exists st :: st in steps && st.EdgeStep? && (path ==> st.isShortestPath) && FirstMatch(edges, st.edge, directed) == k
  }

  ghost function HitKeys(steps: seq<Step>, edges: seq<EdgeRec>, directed: bool, path: bool): set<EdgeKey> {
    set k | 0 <= k < |edges| && Hit(steps, edges, directed, k, path) :: KeyOf(edges[k])
  }

  /** The node records and node set show exactly the nodes the steps name, and the start flag on the start only. */
  ghost predicate NodesShow(rn: seq<NodeRec>, marked: set<NodeId>, nodes: seq<NodeRec>, steps: seq<Step>, start: Option<NodeId>) {
    |rn| == |nodes| && Map(rn, Bare) == Map(nodes, Bare) && marked == NamedNodes(steps, nodes)
    && (forall i :: 0 <= i < |nodes| ==> (rn[i].highlighted <==> nodes[i].id in NamedNodes(steps, nodes)))
    && (forall i :: 0 <= i < |nodes| ==> (rn[i].isStart <==> Some(nodes[i].id) == start))
  }

  /** The edge records and edge sets show exactly the edges that are the first match of a step. */
  ghost predicate EdgesShow(re: seq<EdgeRec>, hit: set<EdgeKey>, onPath: set<EdgeKey>, edges: seq<EdgeRec>, steps: seq<Step>, directed: bool) {
    |re| == |edges| && Map(re, BareEdge) == Map(edges, BareEdge)
    && (forall k :: 0 <= k < |edges| ==> (re[k].highlighted <==> Hit(steps, edges, directed, k, false)))
    && (forall k :: 0 <= k < |edges| ==> (re[k].shortestPath <==> Hit(steps, edges, directed, k, true)))
    && hit == HitKeys(steps, edges, directed, false) && onPath == HitKeys(steps, edges, directed, true)
  }

  /**
   * What a canvas shows after `steps`: exactly the nodes the node steps name
   * (those in the node set), the start flag on the start node only, exactly
   * the edges that are the first match of an edge step (the shortest-path flag
   * for shortest-path steps), and their keys in the sets.
   */
  ghost predicate Shows(r: Canvas, nodes: seq<NodeRec>, edges: seq<EdgeRec>, steps: seq<Step>, directed: bool, start: Option<NodeId>) {
    NodesShow(r.nodes, r.marks.nodes, nodes, steps, start)
    && EdgesShow(r.edges, r.marks.edges, r.marks.pathEdges, edges, steps, directed)
  }

  lemma FirstNodeBare(a: seq<NodeRec>, b: seq<NodeRec>, id: NodeId)
    requires Map(a, Bare) == Map(b, Bare)
    ensures FirstNode(a, id) == FirstNode(b, id)
  {
    var p := (n: NodeRec) => n.id == id;
    assert forall i :: 0 <= i < |a| ==> Bare(a[i]) == Bare(b[i]) && (p(a[i]) <==> p(b[i]));
  }

  lemma FirstMatchBare(a: seq<EdgeRec>, b: seq<EdgeRec>, e: Edge, directed: bool)
    requires Map(a, BareEdge) == Map(b, BareEdge)
    ensures FirstMatch(a, e, directed) == FirstMatch(b, e, directed)
  {
    var p := (f: EdgeRec) => Matches(f, e, directed);
    assert forall i :: 0 <= i < |a| ==> BareEdge(a[i]) == BareEdge(b[i]) && (p(a[i]) <==> p(b[i]));
  }

  lemma NamedNodesSnoc(steps: seq<Step>, st: Step, nodes: seq<NodeRec>)
    ensures NamedNodes(steps + [st], nodes)
            == NamedNodes(steps, nodes) + (if NodeLike(st) && st.id in IdSet(nodes) then {st.id} else {})
  {
    assert forall s :: s in steps + [st] <==> s in steps || s == st;
  }

  lemma HitSnoc(steps: seq<Step>, st: Step, edges: seq<EdgeRec>, directed: bool, k: int, path: bool)
    ensures Hit(steps + [st], edges, directed, k, path)
            <==> Hit(steps, edges, directed, k, path)
                 || (st.EdgeStep? && (path ==> st.isShortestPath) && FirstMatch(edges, st.edge, directed) == k)
  {
    assert forall s :: s in steps + [st] <==> s in steps || s == st;
    assert st in steps + [st];
  }

  lemma HitKeysSnoc(steps: seq<Step>, st: Step, edges: seq<EdgeRec>, directed: bool, path: bool)
    ensures var k := if st.EdgeStep? then FirstMatch(edges, st.edge, directed) else -1;
      HitKeys(steps + [st], edges, directed, path)
      == HitKeys(steps, edges, directed, path)
         + (if k != -1 && (path ==> st.isShortestPath) then {KeyOf(edges[k])} else {})
  {
    forall k | 0 <= k < |edges| ensures Hit(steps + [st], edges, directed, k, path)
            <==> Hit(steps, edges, directed, k, path)
                 || (st.EdgeStep? && (path ==> st.isShortestPath) && FirstMatch(edges, st.edge, directed) == k) {
      HitSnoc(steps, st, edges, directed, k, path);
    }
  }

  lemma ShowsStart(nodes: seq<NodeRec>, edges: seq<EdgeRec>, directed: bool, start: Option<NodeId>)
    ensures Shows(Cleared(nodes, edges, start), nodes, edges, [], directed, start)
  {
    var c := Cleared(nodes, edges, start);
    assert forall i :: 0 <= i < |nodes| ==> Bare(c.nodes[i]) == Bare(nodes[i]);
    assert forall i :: 0 <= i < |edges| ==> BareEdge(c.edges[i]) == BareEdge(edges[i]);
    assert HitKeys([], edges, directed, false) == {};
    assert HitKeys([], edges, directed, true) == {};
  }

  /** A node-like step highlights the one node with its id, if there is one. */
  lemma NodeStepShows(r: Canvas, nodes: seq<NodeRec>, steps: seq<Step>, st: Step, directed: bool, start: Option<NodeId>)
    requires Ascending(nodes) && NodeLike(st) && NodesShow(r.nodes, r.marks.nodes, nodes, steps, start)
    ensures var r' := ApplyStep(r, st, true, directed, start);
      NodesShow(r'.nodes, r'.marks.nodes, nodes, steps + [st], start)
      && r'.edges == r.edges && r'.marks.edges == r.marks.edges && r'.marks.pathEdges == r.marks.pathEdges
  {
    var r' := ApplyStep(r, st, true, directed, start);
    var t := steps + [st];
    FirstNodeBare(r.nodes, nodes, st.id);
    var k := FirstNode(nodes, st.id);
    IdSetMembers(nodes);
    NamedNodesSnoc(steps, st, nodes);
    assert k != -1 <==> st.id in IdSet(nodes);
    forall i | 0 <= i < |nodes| ensures r.nodes[i].id == nodes[i].id && r'.nodes[i].id == nodes[i].id
                                       && (i != k ==> r'.nodes[i] == r.nodes[i]) {
      assert Map(r.nodes, Bare)[i] == Bare(r.nodes[i]);
      assert Map(r'.nodes, Bare)[i] == Bare(r'.nodes[i]);
    }
    forall i | 0 <= i < |nodes| && k != -1 && i != k ensures nodes[i].id != st.id {
      if i < k { assert nodes[i].id < nodes[k].id; } else { assert nodes[k].id < nodes[i].id; }
    }
  }

  /** An edge step highlights the first edge it matches, if there is one. */
  lemma EdgeStepShows(r: Canvas, edges: seq<EdgeRec>, steps: seq<Step>, st: Step, directed: bool, start: Option<NodeId>)
    requires st.EdgeStep? && EdgesShow(r.edges, r.marks.edges, r.marks.pathEdges, edges, steps, directed)
    ensures var r' := ApplyStep(r, st, true, directed, start);
      EdgesShow(r'.edges, r'.marks.edges, r'.marks.pathEdges, edges, steps + [st], directed)
      && r'.nodes == r.nodes && r'.marks.nodes == r.marks.nodes
  {
    var r' := ApplyStep(r, st, true, directed, start);
    FirstMatchBare(r.edges, edges, st.edge, directed);
    var k := FirstMatch(edges, st.edge, directed);
    HitKeysSnoc(steps, st, edges, directed, false);
    HitKeysSnoc(steps, st, edges, directed, true);
    if k != -1 {
      var f := r.edges[k];
      assert r'.edges == r.edges[k := f.(highlighted := true, shortestPath := f.shortestPath || st.isShortestPath)];
      assert KeyOf(f) == KeyOf(edges[k]) by { assert Map(r.edges, BareEdge)[k] == BareEdge(f); }
    }
    forall j | 0 <= j < |edges|
      ensures r'.edges[j].highlighted <==> Hit(steps + [st], edges, directed, j, false)
      ensures r'.edges[j].shortestPath <==> Hit(steps + [st], edges, directed, j, true)
    {
      HitSnoc(steps, st, edges, directed, j, false);
      HitSnoc(steps, st, edges, directed, j, true);
      if j != k {
        assert r'.edges[j] == r.edges[j];
      }
    }
  }

  lemma NodesStable(rn: seq<NodeRec>, marked: set<NodeId>, nodes: seq<NodeRec>, steps: seq<Step>, st: Step, start: Option<NodeId>)
    requires !NodeLike(st) && NodesShow(rn, marked, nodes, steps, start)
    ensures NodesShow(rn, marked, nodes, steps + [st], start)
  {
    NamedNodesSnoc(steps, st, nodes);
  }

  lemma EdgesStable(re: seq<EdgeRec>, hit: set<EdgeKey>, onPath: set<EdgeKey>, edges: seq<EdgeRec>, steps: seq<Step>, st: Step, directed: bool)
    requires !st.EdgeStep? && EdgesShow(re, hit, onPath, edges, steps, directed)
    ensures EdgesShow(re, hit, onPath, edges, steps + [st], directed)
  {
    forall j | 0 <= j < |edges|
      ensures Hit(steps + [st], edges, directed, j, false) == Hit(steps, edges, directed, j, false)
      ensures Hit(steps + [st], edges, directed, j, true) == Hit(steps, edges, directed, j, true)
    {
      HitSnoc(steps, st, edges, directed, j, false);
      HitSnoc(steps, st, edges, directed, j, true);
    }
    HitKeysSnoc(steps, st, edges, directed, false);
    HitKeysSnoc(steps, st, edges, directed, true);
  }

  /**
   * Stepping to a prefix shows exactly what that prefix names, whatever the
   * canvas showed before (given ids without repetition, as the editor keeps).
   */
  lemma {:induction false} ReplayShows(nodes: seq<NodeRec>, edges: seq<EdgeRec>, steps: seq<Step>, directed: bool, start: Option<NodeId>)
    requires Ascending(nodes)
    ensures Shows(Replay(Cleared(nodes, edges, start), steps, true, directed, start), nodes, edges, steps, directed, start)
    decreases |steps|
  {
    if steps == [] {
      ShowsStart(nodes, edges, directed, start);
    } else {
      var init := steps[..|steps| - 1];
      var st := steps[|steps| - 1];
      assert steps == init + [st];
      ReplayShows(nodes, edges, init, directed, start);
      var r := Replay(Cleared(nodes, edges, start), init, true, directed, start);
      if NodeLike(st) {
        NodeStepShows(r, nodes, init, st, directed, start);
        EdgesStable(r.edges, r.marks.edges, r.marks.pathEdges, edges, init, st, directed);
      } else if st.EdgeStep? {
        EdgeStepShows(r, edges, init, st, directed, start);
        NodesStable(r.nodes, r.marks.nodes, nodes, init, st, start);
      } else {
        NodesStable(r.nodes, r.marks.nodes, nodes, init, st, start);
        EdgesStable(r.edges, r.marks.edges, r.marks.pathEdges, edges, init, st, directed);
      }
    }
  }

  // ---------------------------------------------------------------- traversal order

  /** `self.indexOf(x)`: where `x` first occurs in `s`, or -1. */
  function FirstAt(s: seq<NodeId>, x: NodeId): (r: int)
    ensures -1 <= r < |s|
    ensures r >= 0 ==> s[r] == x && forall j :: 0 <= j < r ==> s[j] != x
    ensures r == -1 <==> x !in s
  {
    FindFirst(s, (y: NodeId) => y == x)
  }

  /** `.filter((id, index, self) => self.indexOf(id) === index)` over the first `n` ids. */
  function FirstKept(s: seq<NodeId>, n: nat): seq<NodeId>
    requires n <= |s|
  {
    if n == 0 then []
    else FirstKept(s, n - 1) + (if FirstAt(s, s[n - 1]) == n - 1 then [s[n - 1]] else [])
  }

  /** Each id once, at its first occurrence: the reference de-duplication. */
  function Dedup(s: seq<NodeId>): (r: seq<NodeId>)
    ensures Distinct(r) && forall x :: x in r <==> x in s
  {
    if s == [] then []
    else
      var d := Dedup(s[..|s| - 1]);
      var x := s[|s| - 1];
      assert s == s[..|s| - 1] + [x];
      if x in d then d
      else
        DistinctSnoc(d, x);
        d + [x]
  }

  lemma FirstAtPrefix(s: seq<NodeId>, n: nat, y: NodeId)
    requires n <= |s| && y in s[..n]
    ensures FirstAt(s, y) == FirstAt(s[..n], y) && 0 <= FirstAt(s, y) < n
  {
    var a, b := FirstAt(s, y), FirstAt(s[..n], y);
    assert s[..n][b] == s[b];
    assert s[..n][a] == s[a];
  }

  lemma FirstAtLast(s: seq<NodeId>, n: nat)
    requires 0 < n <= |s| && s[n - 1] !in s[..n - 1]
    ensures FirstAt(s, s[n - 1]) == n - 1
  {
    assert forall j :: 0 <= j < n - 1 ==> s[j] == s[..n - 1][j];
    assert s[n - 1] in s;
  }

  lemma DedupSnoc(t: seq<NodeId>, x: NodeId)
    ensures Dedup(t + [x]) == Dedup(t) + (if x in t then [] else [x])
  {
    assert (t + [x])[..|t|] == t;
  }

  /** The `indexOf` filter is the reference de-duplication. */
  lemma {:induction false} FirstKeptDedup(s: seq<NodeId>, n: nat)
    requires n <= |s|
    ensures FirstKept(s, n) == Dedup(s[..n])
    decreases n
  {
    if n > 0 {
      FirstKeptDedup(s, n - 1);
      var x := s[n - 1];
      assert s[..n] == s[..n - 1] + [x];
      DedupSnoc(s[..n - 1], x);
      if x in s[..n - 1] {
        FirstAtPrefix(s, n - 1, x);
        assert FirstKept(s, n) == FirstKept(s, n - 1);
      } else {
        FirstAtLast(s, n);
        assert FirstKept(s, n) == FirstKept(s, n - 1) + [x];
      }
    }
  }

  /** The de-duplication lists ids in the order of their first occurrences. */
  lemma {:induction false} DedupOrder(s: seq<NodeId>)
    ensures forall i, j :: 0 <= i < j < |Dedup(s)| ==> 0 <= FirstAt(s, Dedup(s)[i]) < FirstAt(s, Dedup(s)[j])
    decreases |s|
  {
    if s != [] {
      var init := s[..|s| - 1];
      var x := s[|s| - 1];
      assert s == init + [x];
      DedupOrder(init);
      var d := Dedup(init);
      var r := Dedup(s);
      forall y | y in init ensures FirstAt(s, y) == FirstAt(init, y) && 0 <= FirstAt(s, y) < |init| {
        FirstAtPrefix(s, |s| - 1, y);
      }
      if x !in init {
        assert forall j :: 0 <= j < |init| ==> s[j] == init[j];
        assert FirstAt(s, x) == |s| - 1;
        assert r == d + [x];
      } else {
        assert r == d;
      }
      forall i, j | 0 <= i < j < |r| ensures 0 <= FirstAt(s, r[i]) < FirstAt(s, r[j]) {
        assert r[i] == d[i] && d[i] in d && r[i] in init;
        if j < |d| {
          assert r[j] == d[j] && d[j] in d && r[j] in init;
        } else {
          assert r[j] == x;
        }
      }
      assert forall i, j :: 0 <= i < j < |r| ==> 0 <= FirstAt(s, r[i]) < FirstAt(s, r[j]);
    } else {
      assert Dedup(s) == [];
    }
  }

  /** The steps the traversal order is read from: visits, and node steps of the start node. */
  predicate Traversal(st: Step, start: Option<NodeId>) {
    st.Visit? || (st.NodeStep? && Some(st.id) == start)
  }

  function TraversalId(st: Step): NodeId {
    if st.Visit? || st.NodeStep? then st.id else 0
  }

  /** `algorithmSteps.filter(...).map(step => step.id)`: the ids the traversal order is read from. */
  function TraversalIds(steps: seq<Step>, start: Option<NodeId>): seq<NodeId> {
    Map(Filter(steps, (st: Step) => Traversal(st, start)), TraversalId)
  }

  /** The BFS/DFS result line: the `indexOf` filter over the traversal ids. */
  function TraversalOrder(steps: seq<Step>, start: Option<NodeId>): seq<NodeId> {
    var ids := TraversalIds(steps, start);
    FirstKept(ids, |ids|)
  }

  lemma TraversalIdsMembers(steps: seq<Step>, start: Option<NodeId>, v: NodeId)
    ensures v in TraversalIds(steps, start) <==> v in VisitIds(steps) || (start == Some(v) && NodeStep(v) in steps)
  {
    var kept := Filter(steps, (st: Step) => Traversal(st, start));
    var ids := TraversalIds(steps, start);
    assert |ids| == |kept| && forall i :: 0 <= i < |kept| ==> ids[i] == TraversalId(kept[i]);
    if v in ids {
      var i :| 0 <= i < |ids| && ids[i] == v;
      assert kept[i] in kept;
    }
    if v in VisitIds(steps) {
      var st :| st in steps && st.Visit? && st.id == v;
      assert st in kept;
      var i :| 0 <= i < |kept| && kept[i] == st;
      assert ids[i] == v;
    }
    if start == Some(v) && NodeStep(v) in steps {
      assert NodeStep(v) in kept;
      var i :| 0 <= i < |kept| && kept[i] == NodeStep(v);
      assert ids[i] == v;
    }
  }

  /**
   * The traversal order lists every visited id, and the start node when a node
   * step names it, once each, in the order they first appear in the trace.
   */
  lemma TraversalOrderMembers(steps: seq<Step>, start: Option<NodeId>)
    ensures var ids := TraversalIds(steps, start);
      var r := TraversalOrder(steps, start);
      r == Dedup(ids) && Distinct(r)
      && (forall v :: v in r <==> v in VisitIds(steps) || (start == Some(v) && NodeStep(v) in steps))
      && (forall i, j :: 0 <= i < j < |r| ==> 0 <= FirstAt(ids, r[i]) < FirstAt(ids, r[j]))
  {
    var ids := TraversalIds(steps, start);
    FirstKeptDedup(ids, |ids|);
    assert ids[..|ids|] == ids;
    DedupOrder(ids);
    forall v ensures v in ids <==> v in VisitIds(steps) || (start == Some(v) && NodeStep(v) in steps) {
      TraversalIdsMembers(steps, start, v);
    }
  }

  // ---------------------------------------------------------------- path reconstruction

  /** `finalPrevious && finalPrevious[v] != null`. */
  predicate HasPrev(prev: Option<Predecessors>, v: NodeId) {
    prev.Some? && v in prev.value && prev.value[v].Some?
  }

  /** What the reconstruction shows for a reached node. */
  datatype PathText =
    | Route(ids: seq<NodeId>)   // the ids from the start to the node
    | CycleLabel                // "Cycle in path reconstruction"
    | TooLong                   // "Path reconstruction error (too long)"
    | NotReconstructed          // "Path to start not fully reconstructed"

  ghost function Keys0(prev: Option<Predecessors>): set<NodeId> {
    if prev.Some? then prev.value.Keys else {}
  }

  /**
   * The reconstruction loop from `curr`, with the ids taken so far (`path`,
   * latest first) and the set of those ids: it stops at an id repeated (a
   * cycle), at a path longer than `limit` (`nodes.length + 1`), or where the
   * predecessors stop; a path that stops at the start becomes the route.
   */
  function Walk(prev: Option<Predecessors>, start: Option<NodeId>, curr: NodeId, path: seq<NodeId>, seen: set<NodeId>, limit: int): PathText
    decreases |Keys0(prev) - seen|
  {
    if HasPrev(prev, curr) && Some(curr) != start then
      if curr in seen then CycleLabel
      else
        var path' := [curr] + path;
        if |path'| > limit then TooLong
        else
          StrictSubsetSize(Keys0(prev) - (seen + {curr}), Keys0(prev) - seen);
          Walk(prev, start, prev.value[curr].value, path', seen + {curr}, limit)
    else if Some(curr) == start then Route([curr] + path)
    else NotReconstructed
  }

  /** `a` is the recorded predecessor of `b`. */
  predicate Link(prev: Option<Predecessors>, a: NodeId, b: NodeId) {
    HasPrev(prev, b) && prev.value[b].value == a
  }

  /** Each id of `q` after the first has the one before it as predecessor. */
  ghost predicate Chain(prev: Option<Predecessors>, q: seq<NodeId>) {
    forall i :: 1 <= i < |q| ==> Link(prev, q[i - 1], q[i])
  }

  /** The state of the reconstruction loop. */
  ghost predicate Walking(prev: Option<Predecessors>, start: Option<NodeId>, target: NodeId,
                          curr: NodeId, path: seq<NodeId>, seen: set<NodeId>, limit: int) {
    Chain(prev, [curr] + path) && ([curr] + path)[|path|] == target
    && Distinct(path) && seen == (set x | x in path) && |path| <= limit
    && (forall x :: x in path ==> HasPrev(prev, x) && Some(x) != start)
  }

  lemma WalkingStep(prev: Option<Predecessors>, start: Option<NodeId>, target: NodeId,
                    curr: NodeId, path: seq<NodeId>, seen: set<NodeId>, limit: int)
    requires Walking(prev, start, target, curr, path, seen, limit)
    requires HasPrev(prev, curr) && Some(curr) != start && curr !in seen && |path| + 1 <= limit
    ensures Walking(prev, start, target, prev.value[curr].value, [curr] + path, seen + {curr}, limit)
  {
    var next := prev.value[curr].value;
    var rest := [curr] + path;
    var q := [next] + rest;
    forall i | 1 <= i < |q| ensures Link(prev, q[i - 1], q[i]) {
      if i > 1 { assert q[i - 1] == rest[i - 2] && q[i] == rest[i - 1]; }
    }
    assert curr !in path;
    DistinctCons(curr, path);
  }

  lemma DistinctCons(x: NodeId, s: seq<NodeId>)
    requires Distinct(s) && x !in s
    ensures Distinct([x] + s)
  {
    var t := [x] + s;
    forall i, j | 0 <= i < j < |t| ensures t[i] != t[j] {
      assert t[j] == s[j - 1];
      if i > 0 { assert t[i] == s[i - 1]; }
    }
  }

  /**
   * What each outcome of the reconstruction means: a route is a chain of
   * predecessor links from the start to the target without repetition; "too
   * long" needs more ids with predecessors than the limit; a cycle label comes
   * with a chain from the target that returns to one of its own ids without
   * meeting the start; "not fully reconstructed" comes with a chain that stops
   * at an id without predecessor that is not the start.
   */
  ghost predicate Means(prev: Option<Predecessors>, start: Option<NodeId>, target: NodeId, limit: int, r: PathText) {
    (r.Route? ==> start.Some? && r.ids != [] && r.ids[0] == start.value && r.ids[|r.ids| - 1] == target
                  && Chain(prev, r.ids) && Distinct(r.ids) && |r.ids| <= limit + 1)
    && (r == TooLong ==> |Keys0(prev)| > limit)
    && (r == CycleLabel ==> exists q :: Chain(prev, q) && q != [] && q[|q| - 1] == target && q[0] in q[1..]
                                      && forall x :: x in q ==> Some(x) != start)
    && (r == NotReconstructed ==> exists q :: Chain(prev, q) && q != [] && q[|q| - 1] == target
                                            && !HasPrev(prev, q[0]) && Some(q[0]) != start)
  }

  /**
   * From any state of the reconstruction loop, the outcome means what
   * `Means` says of it.
   */
  lemma {:induction false} WalkSound(prev: Option<Predecessors>, start: Option<NodeId>, target: NodeId,
                                     curr: NodeId, path: seq<NodeId>, seen: set<NodeId>, limit: int)
    requires Walking(prev, start, target, curr, path, seen, limit)
    ensures Means(prev, start, target, limit, Walk(prev, start, curr, path, seen, limit))
    decreases |Keys0(prev) - seen|
  {
    var q := [curr] + path;
    if HasPrev(prev, curr) && Some(curr) != start {
      if curr in seen {
        assert Walk(prev, start, curr, path, seen, limit) == CycleLabel;
        assert q[0] in q[1..] by { assert q[1..] == path; }
        assert forall x :: x in q ==> Some(x) != start;
        assert Chain(prev, q) && q != [] && q[|q| - 1] == target;
      } else if |q| > limit {
        assert Walk(prev, start, curr, path, seen, limit) == TooLong;
        assert forall x :: x in q ==> x in Keys0(prev);
        DistinctCons(curr, path);
        DistinctLength(q, Keys0(prev));
      } else {
        var next := prev.value[curr].value;
        assert Walk(prev, start, curr, path, seen, limit) == Walk(prev, start, next, q, seen + {curr}, limit);
        StrictSubsetSize(Keys0(prev) - (seen + {curr}), Keys0(prev) - seen);
        WalkingStep(prev, start, target, curr, path, seen, limit);
        WalkSound(prev, start, target, next, q, seen + {curr}, limit);
      }
    } else if Some(curr) == start {
      assert Walk(prev, start, curr, path, seen, limit) == Route(q);
      DistinctCons(curr, path);
      assert q[0] == start.value && q[|q| - 1] == target && Chain(prev, q);
    } else {
      assert Walk(prev, start, curr, path, seen, limit) == NotReconstructed;
      assert Chain(prev, q) && q != [] && q[|q| - 1] == target;
    }
  }

  /** The reconstruction from a target: all four outcomes mean what `WalkSound` says, and it always ends. */
  lemma Explained(prev: Option<Predecessors>, start: Option<NodeId>, target: NodeId, limit: nat)
    ensures var r := Walk(prev, start, target, [], {}, limit);
      (r.Route? ==> start.Some? && r.ids != [] && r.ids[0] == start.value && r.ids[|r.ids| - 1] == target
                    && Chain(prev, r.ids) && Distinct(r.ids) && |r.ids| <= limit + 1)
      && (|Keys0(prev)| <= limit ==> r != TooLong)
      && (r == CycleLabel ==> exists q :: Chain(prev, q) && q != [] && q[|q| - 1] == target && q[0] in q[1..]
                                        && forall x :: x in q ==> Some(x) != start)
      && (r == NotReconstructed ==> exists q :: Chain(prev, q) && q != [] && q[|q| - 1] == target
                                              && !HasPrev(prev, q[0]) && Some(q[0]) != start)
  {
    assert (set x: NodeId | x in []) == {};
    WalkSound(prev, start, target, target, [], {}, limit);
  }

  /**
   * The reconstruction loop of `displayAlgorithmCompletion` for one reached
   * node, including its final test (which, since the start never enters the
   * path, always labels a path that did not reach the start).
   */
  method Reconstruct(prev: Option<Predecessors>, start: Option<NodeId>, target: NodeId, limit: int) returns (r: PathText)
    ensures r == Walk(prev, start, target, [], {}, limit)
  {
    var curr, path, seen := target, [], {};
    while HasPrev(prev, curr) && Some(curr) != start
      invariant Walk(prev, start, curr, path, seen, limit) == Walk(prev, start, target, [], {}, limit)
      invariant forall x :: x in path ==> Some(x) != start
      decreases |Keys0(prev) - seen|
    {
      if curr in seen {
        assert Walk(prev, start, curr, path, seen, limit) == CycleLabel;
        return CycleLabel;
      }
      ghost var before := Walk(prev, start, curr, path, seen, limit);
      StrictSubsetSize(Keys0(prev) - (seen + {curr}), Keys0(prev) - seen);
      seen := seen + {curr};
      path := [curr] + path;
      curr := prev.value[curr].value;
      assert before == if |path| > limit then TooLong else Walk(prev, start, curr, path, seen, limit);
      if |path| > limit {
        return TooLong;
      }
    }
    assert Walk(prev, start, curr, path, seen, limit) == if Some(curr) == start then Route([curr] + path) else NotReconstructed;
    assert forall x :: x in path ==> Some(x) != start;
    if Some(curr) == start {
      r := Route([curr] + path);
    } else if start.None? || start.value !in path {
      r := NotReconstructed;
    } else {
      r := Route(path);
    }
  }

  // ---------------------------------------------------------------- the summary

  /** One line of the shortest-path summary. */
  datatype Line = Unreached(id: NodeId) | Reached(id: NodeId, dist: int, path: PathText)

  /** What `displayAlgorithmCompletion` adds below its header. */
  datatype Report =
    | Header                     // no algorithm chosen
    | Order(ids: seq<NodeId>)    // BFS or DFS
    | Paths(lines: seq<Line>)    // Dijkstra or Bellman-Ford with tables
    | NoPaths                    // Dijkstra or Bellman-Ford without tables

  /** The line for one node: unreached without a finite distance, the start itself, or a reconstruction. */
  function LineFor(id: NodeId, dist: Distances, prev: Option<Predecessors>, start: Option<NodeId>, limit: int): Line {
    if id !in dist || dist[id].Inf? then Unreached(id)
    else if Some(id) == start then Reached(id, dist[id].d, Route([id]))
    else Reached(id, dist[id].d, Walk(prev, start, id, [], {}, limit))
  }

  function Summary(algorithm: Option<Algorithm>, steps: seq<Step>, nodes: seq<NodeRec>,
                   dist: Option<Distances>, prev: Option<Predecessors>, start: Option<NodeId>): Report {
    if algorithm == Some(Bfs) || algorithm == Some(Dfs) then Order(TraversalOrder(steps, start))
    else if algorithm.Some? && dist.Some? then
      Paths(Map(nodes, (n: NodeRec) => LineFor(n.id, dist.value, prev, start, |nodes| + 1)))
    else if algorithm.Some? then NoPaths
    else Header
  }

  /** The summary as `displayAlgorithmCompletion` builds it, one node at a time. */
  method Summarize(algorithm: Option<Algorithm>, steps: seq<Step>, nodes: seq<NodeRec>,
                   dist: Option<Distances>, prev: Option<Predecessors>, start: Option<NodeId>) returns (r: Report)
    ensures r == Summary(algorithm, steps, nodes, dist, prev, start)
  {
    if algorithm == Some(Bfs) || algorithm == Some(Dfs) {
      return Order(TraversalOrder(steps, start));
    }
    if algorithm.None? {
      return Header;
    }
    if dist.None? {
      return NoPaths;
    }
    var lines: seq<Line> := [];
    for i := 0 to |nodes|
      invariant lines == Map(nodes[..i], (n: NodeRec) => LineFor(n.id, dist.value, prev, start, |nodes| + 1))
    {
      var id := nodes[i].id;
      var line: Line;
      if id !in dist.value || dist.value[id].Inf? {
        line := Unreached(id);
      } else if Some(id) == start {
        line := Reached(id, dist.value[id].d, Route([id]));
      } else {
        var text := Reconstruct(prev, start, id, |nodes| + 1);
        line := Reached(id, dist.value[id].d, text);
      }
      lines := lines + [line];
      assert nodes[..i + 1] == nodes[..i] + [nodes[i]];
    }
    assert nodes[..|nodes|] == nodes;
    r := Paths(lines);
  }

  /** After a BFS or DFS run, the traversal order starts at the start and names every node reachable from it once. */
  lemma TraversalOrderReachable(g: Snapshot, s: NodeId, steps: seq<Step>)
    requires steps != [] && steps[0] == NodeStep(s)
    requires forall v :: v in VisitIds(steps) <==> Reachable(g, s, v)
    ensures var r := TraversalOrder(steps, Some(s));
      Distinct(r) && r != [] && r[0] == s && forall v :: v in r <==> Reachable(g, s, v)
  {
    var r := TraversalOrder(steps, Some(s));
    var ids := TraversalIds(steps, Some(s));
    TraversalOrderMembers(steps, Some(s));
    ReachableSelf(g, s);
    assert steps[0] in steps;
    assert Filter(steps, (st: Step) => Traversal(st, Some(s)))[0] == NodeStep(s);
    assert ids[0] == s;
    assert FirstAt(ids, s) == 0;
    assert s in r;
    forall j | 0 < j < |r| ensures r[j] != s {
      assert 0 <= FirstAt(ids, r[0]) < FirstAt(ids, r[j]);
    }
  }

  // ---------------------------------------------------------------- the animation's timeouts

  /** A pending `setTimeout` of the animation: its handle and the step index its callback goes on from. */
  datatype Timer = Timer(id: nat, next: nat)

  /** The pending timeouts, `animationFrameId`, and the next handle the browser hands out (never 0). */
  datatype Clock = Clock(pending: seq<Timer>, frame: Option<nat>, nextId: nat)

  /** At most one timeout is pending, and `animationFrameId` holds it. */
  predicate Single(c: Clock) {
    |c.pending| <= 1 && (c.pending != [] ==> c.frame == Some(c.pending[0].id))
  }

  /** `if (animationFrameId) clearTimeout(animationFrameId)`: the handle itself stays. */
  function Halted(c: Clock): (r: Clock)
    ensures r.frame == c.frame && r.nextId == c.nextId
    ensures forall t :: t in r.pending <==> t in c.pending && Some(t.id) != c.frame
    ensures Single(c) ==> r.pending == []
  {
    var r := Clock(Filter(c.pending, (t: Timer) => Some(t.id) != c.frame), c.frame, c.nextId);
    assert Single(c) && c.pending != [] ==> c.pending[0] !in r.pending;
    r
  }

  /** `clearTimeout(animationFrameId); animationFrameId = null`. */
  function Stopped(c: Clock): (r: Clock)
    ensures r.frame.None? && r.nextId == c.nextId
    ensures forall t :: t in r.pending <==> t in c.pending && Some(t.id) != c.frame
    ensures Single(c) ==> r.pending == [] && Single(r)
  {
    Halted(c).(frame := None)
  }

  /**
   * `cancelAnimationFrame(animationFrameId); animationFrameId = null`, as
   * `showStartNodeModal`, `resetCanvas` and `runAlgorithm` stop the animation:
   * the handle came from `setTimeout`, which `cancelAnimationFrame` does not
   * cancel, so only the handle is forgotten.
   */
  function StoppedAsWritten(c: Clock): (r: Clock)
    ensures r.pending == c.pending && r.frame.None?
  {
    c.(frame := None)
  }

  /** `animationFrameId = setTimeout(animateNextStepWithTimeout, ...)` for a callback going on at `next`. */
  function Scheduled(c: Clock, next: nat): (r: Clock)
    ensures r.pending == c.pending + [Timer(c.nextId, next)] && r.frame == Some(c.nextId)
    ensures c.pending == [] ==> Single(r)
  {
    Clock(c.pending + [Timer(c.nextId, next)], Some(c.nextId), c.nextId + 1)
  }

  /**
   * The corrected stop leaves nothing pending, so the next `animateSteps`
   * runs the only callback chain; as written, a callback of the old chain
   * stays pending beside the new one.
   */
  lemma TwoChains()
    ensures var c := Scheduled(Clock([], None, 1), 5);
      Single(c)
      && |Scheduled(Halted(StoppedAsWritten(c)), 1).pending| == 2
      && Scheduled(Halted(StoppedAsWritten(c)), 1).pending[0].next == 5
      && Scheduled(Halted(Stopped(c)), 1).pending == [Timer(2, 1)]
  {
    var c := Scheduled(Clock([], None, 1), 5);
    assert c.pending == [Timer(1, 5)];
    var w := Halted(StoppedAsWritten(c));
    assert Timer(1, 5) in w.pending;
    assert w.pending == [Timer(1, 5)] by {
      assert Filter(c.pending, (t: Timer) => Some(t.id) != None) == [Timer(1, 5)];
    }
  }
}
