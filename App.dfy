/**
 * The editor page: the script's global state (the node and edge lists, the
 * modes, the selection, the undo stack, the drag, the algorithm, its steps and
 * the playback position, the animation's timeout, the highlight sets and the
 * final tables) and the handlers that change it, in the order the page runs
 * them.  Every handler keeps `Valid`: the document stays sound (ascending ids,
 * edges between nodes, a start that is a node), the undo stack can be undone
 * to the bottom, the playback position is inside the steps, and at most one
 * animation timeout is pending, going on at the next step.
 *
 * The hit tests (which node is under the mouse, which edge is within five
 * pixels) are inputs: `hit` is the index of the node `nodes.find(...)` returns.
 * The worker's reply is delivered as soon as the run starts.  The three places
 * that stop the animation with `cancelAnimationFrame` use the corrected stop,
 * `Stopped`, which clears the pending timeout.
 */
module App {
  import opened Sequences
  import opened Graph
  import opened Trace
  import opened Editor
  import opened Playback
  import Engine

  /** What the start-node field holds: blank, not a number for `parseInt`, or an integer. */
  datatype Entry = Blank | NaN | Number(value: int)

  /** Why `saveStartNode` keeps the start node. */
  datatype StartError = EmptyEntry | UnknownNode

  /** `draggedNode` (its id and where it is now) with `dragStartX` and `dragStartY`. */
  datatype Drag = Drag(id: NodeId, x: int, y: int, fromX: int, fromY: int)

  /** The modes, the edge selection and the drag. */
  datatype ToolState = ToolState(directed: bool, edgeMode: bool, deleteMode: bool, selected: seq<NodeId>, dragged: Option<Drag>)

  /** The algorithm, its steps, the playback position and flags, the timeout, the tables and the last summary. */
  datatype PlayState = PlayState(algorithm: Option<Algorithm>, steps: seq<Step>, index: int, completed: bool,
                                 paused: bool, clock: Clock, dist: Option<Distances>, prev: Option<Predecessors>,
                                 report: Option<Report>)

  /** The node radius that bounds a dragged node to the canvas. */
  const Radius := 20

  /** `Math.max(lo, Math.min(hi, v))`. */
  function Clamp(v: int, lo: int, hi: int): (r: int)
    ensures lo <= r
    ensures r == v || r == lo || r == hi
    ensures lo <= hi ==> r <= hi
    ensures lo <= v <= hi ==> r == v
  {
    var m := if v < hi then v else hi;
    if m < lo then lo else m
  }

  /** Where `addNode` puts the node after `n` others, on one axis of a canvas of length `size`. */
  function Spot(size: int, n: nat): (r: int)
    ensures 25 <= r && (50 <= size ==> r <= size - 25)
  {
    Clamp(size / 2 + (n * 50) % 200 - 100, 25, size - 25)
  }

  /** `selectedNodes.forEach(n => n.isHighlighted = false)`, the nodes found by id. */
  function Unlit(nodes: seq<NodeRec>, ids: seq<NodeId>): (r: seq<NodeRec>)
    ensures |r| == |nodes| && Map(r, Bare) == Map(nodes, Bare)
    ensures forall i :: 0 <= i < |nodes| ==>
      r[i].isStart == nodes[i].isStart && (r[i].highlighted <==> nodes[i].highlighted && nodes[i].id !in ids)
  {
    var r := Map(nodes, (n: NodeRec) => if n.id in ids then n.(highlighted := false) else n);
    FlagsOnly(r, nodes);
    r
  }

  /** The node at `k` highlighted. */
  function Lit(nodes: seq<NodeRec>, k: nat): (r: seq<NodeRec>)
    requires k < |nodes|
    ensures |r| == |nodes| && Map(r, Bare) == Map(nodes, Bare)
    ensures r[k].highlighted && forall i :: 0 <= i < |nodes| && i != k ==> r[i] == nodes[i]
  {
    var r := nodes[k := nodes[k].(highlighted := true)];
    FlagsOnly(r, nodes);
    r
  }

  /** `nodes.forEach(n => n.isStart = (n.id === startNodeId))`. */
  function Starred(nodes: seq<NodeRec>, start: Option<NodeId>): (r: seq<NodeRec>)
    ensures |r| == |nodes| && Map(r, Bare) == Map(nodes, Bare)
    ensures forall i :: 0 <= i < |nodes| ==>
      r[i].highlighted == nodes[i].highlighted && (r[i].isStart <==> Some(nodes[i].id) == start)
  {
    var r := Map(nodes, (n: NodeRec) => n.(isStart := Some(n.id) == start));
    FlagsOnly(r, nodes);
    r
  }

  lemma FlagsOnly(a: seq<NodeRec>, b: seq<NodeRec>)
    requires |a| == |b| && forall i :: 0 <= i < |a| ==> Bare(a[i]) == Bare(b[i])
    ensures Map(a, Bare) == Map(b, Bare)
  {
  }

  lemma ResetBare(nodes: seq<NodeRec>, start: Option<NodeId>)
    ensures Map(ResetNodes(nodes, start), Bare) == Map(nodes, Bare)
  {
    FlagsOnly(ResetNodes(nodes, start), nodes);
  }

  lemma ResetEdgesBare(edges: seq<EdgeRec>)
    ensures Map(ResetEdges(edges), BareEdge) == Map(edges, BareEdge)
  {
    var r := ResetEdges(edges);
    assert forall i :: 0 <= i < |r| ==> BareEdge(r[i]) == BareEdge(edges[i]);
  }

  /** Changing only display flags keeps the shape, so keeps a sound document sound. */
  lemma FlagsKeep(d: Doc, nodes: seq<NodeRec>, edges: seq<EdgeRec>)
    requires Sound(d) && Map(nodes, Bare) == Map(d.nodes, Bare) && Map(edges, BareEdge) == Map(d.edges, BareEdge)
    ensures Sound(Doc(nodes, edges, d.start)) && ShapeOf(Doc(nodes, edges, d.start)) == ShapeOf(d)
  {
    BareIds(nodes, d.nodes);
    BareKeys(edges, d.edges);
    SameIdsKeep(d, Doc(nodes, edges, d.start));
  }

  /** The document is sound and its undo stack can be undone to the bottom. */
  ghost predicate Kept(d: Doc, undoStack: seq<Command>) {
    Sound(d) && Consistent(ShapeOf(d), undoStack)
  }

  /** An edit that keeps the document sound and can be undone keeps `Kept` once its command is pushed. */
  lemma KeptPush(d: Doc, e: Edit, undoStack: seq<Command>)
    requires Kept(d, undoStack) && Sound(e.doc) && Invertible(d, e)
    ensures Kept(e.doc, undoStack + [e.command])
  {
    ConsistentPush(d, e, undoStack);
  }

  /** `addNode` keeps `Kept`, and undoing its command gives back the document. */
  lemma AddNodeStep(d: Doc, x: int, y: int, undoStack: seq<Command>)
    requires Kept(d, undoStack)
    ensures var e := Editor.AddNode(d, x, y); Kept(e.doc, undoStack + [e.command]) && Editor.Undo(e.doc, e.command) == d
  {
    AddNodeKeeps(d, x, y);
    KeptPush(d, Editor.AddNode(d, x, y), undoStack);
    UndoAddNode(d, x, y);
  }

  /** Changing only display flags keeps `Kept`. */
  lemma FlagsStep(d: Doc, nodes: seq<NodeRec>, edges: seq<EdgeRec>, undoStack: seq<Command>)
    requires Kept(d, undoStack) && Map(nodes, Bare) == Map(d.nodes, Bare) && Map(edges, BareEdge) == Map(d.edges, BareEdge)
    ensures Kept(Doc(nodes, edges, d.start), undoStack)
  {
    FlagsKeep(d, nodes, edges);
  }

  /** Moving a node keeps `Kept`. */
  lemma PlacedStep(d: Doc, id: NodeId, x: int, y: int, undoStack: seq<Command>)
    requires Kept(d, undoStack)
    ensures Kept(d.(nodes := Placed(d.nodes, id, x, y)), undoStack)
  {
    PlacedKeeps(d, id, x, y);
  }

  /** Recording a finished drag keeps `Kept`. */
  lemma MovedStep(d: Doc, c: Command, undoStack: seq<Command>)
    requires Kept(d, undoStack) && c.MovedNode?
    ensures Kept(d, undoStack + [c])
  {
    KeptPush(d, Edit(d, c), undoStack);
  }

  /** Deleting a node keeps `Kept`; undoing it gives back the nodes, and the edges as a multiset. */
  lemma DeleteNodeStep(d: Doc, i: nat, undoStack: seq<Command>)
    requires Kept(d, undoStack) && i < |d.nodes|
    ensures var e := DeleteNode(d, i); var u := Editor.Undo(e.doc, e.command);
      Kept(e.doc, undoStack + [e.command]) && u.nodes == d.nodes && multiset(u.edges) == multiset(d.edges)
  {
    DeleteNodeKeeps(d, i);
    KeptPush(d, DeleteNode(d, i), undoStack);
    UndoDeleteNode(d, i);
  }

  /** Deleting an edge keeps `Kept`; undoing it gives back the document up to the order of the edges. */
  lemma DeleteEdgeStep(d: Doc, j: nat, undoStack: seq<Command>)
    requires Kept(d, undoStack) && j < |d.edges|
    ensures var e := DeleteEdge(d, j); var u := Editor.Undo(e.doc, e.command);
      Kept(e.doc, undoStack + [e.command]) && u == d.(edges := u.edges) && multiset(u.edges) == multiset(d.edges)
  {
    DeleteEdgeKeeps(d, j);
    KeptPush(d, DeleteEdge(d, j), undoStack);
    UndoDeleteEdge(d, j);
  }

  /** Adding an edge keeps `Kept`; undoing it gives back the multiset of edge triples. */
  lemma SaveEdgeStep(d: Doc, selected: seq<NodeId>, weight: Option<int>, directed: bool, undoStack: seq<Command>)
    requires Kept(d, undoStack) && SaveEdge(d, selected, weight, directed).Added?
    ensures var e := SaveEdge(d, selected, weight, directed).edit;
      Kept(e.doc, undoStack + [e.command]) && e.doc.nodes == d.nodes && e.doc.start == d.start
      && multiset(Keys(Editor.Undo(e.doc, e.command).edges)) == multiset(Keys(d.edges))
  {
    var e := SaveEdge(d, selected, weight, directed).edit;
    SaveEdgeKeeps(d, selected, weight, directed);
    KeptPush(d, e, undoStack);
    UndoAddEdge(d, selected, weight, directed);
  }

  /**
   * `saveEdgeWeight` past the weight check keeps `Kept`: the edge it may add
   * and the unhighlighting of the selection.
   */
  lemma SavedStep(d: Doc, selected: seq<NodeId>, weight: Option<int>, directed: bool, undoStack: seq<Command>)
    requires Kept(d, undoStack) && SaveEdge(d, selected, weight, directed) != BadWeight
    ensures var r := SaveEdge(d, selected, weight, directed);
      var edges := if r.Added? then r.edit.doc.edges else d.edges;
      var stack := if r.Added? then undoStack + [r.edit.command] else undoStack;
      Kept(Doc(Unlit(d.nodes, selected), edges, d.start), stack)
  {
    var r := SaveEdge(d, selected, weight, directed);
    if r.Added? {
      SaveEdgeStep(d, selected, weight, directed, undoStack);
      FlagsStep(r.edit.doc, Unlit(d.nodes, selected), r.edit.doc.edges, undoStack + [r.edit.command]);
    } else {
      FlagsStep(d, Unlit(d.nodes, selected), d.edges, undoStack);
    }
  }

  /** Undoing the top command and popping it keeps `Kept`. */
  lemma PopStep(d: Doc, undoStack: seq<Command>)
    requires Kept(d, undoStack) && undoStack != []
    ensures Kept(Editor.Undo(d, undoStack[|undoStack| - 1]), undoStack[..|undoStack| - 1])
  {
    ConsistentPop(d, undoStack);
    UndoKeeps(d, undoStack[|undoStack| - 1]);
  }

  /** Making the node `v` the start keeps `Kept`. */
  lemma StartStep(d: Doc, v: NodeId, undoStack: seq<Command>)
    requires Kept(d, undoStack) && v in Editor.Ids(d.nodes)
    ensures Kept(Doc(Starred(d.nodes, Some(v)), d.edges, Some(v)), undoStack)
  {
    var u := d.(start := Some(v));
    assert v in IdSet(d.nodes);
    assert ShapeOf(u) == ShapeOf(d);
    FlagsKeep(u, Starred(d.nodes, Some(v)), d.edges);
  }

  /**
   * Rebuilding the canvas from cleared flags by replaying steps keeps `Kept`,
   * and the result shows exactly what those steps name.
   */
  lemma RebuildStep(d: Doc, undoStack: seq<Command>, steps: seq<Step>, directed: bool)
    requires Kept(d, undoStack)
    ensures var c := Replay(Cleared(d.nodes, d.edges, d.start), steps, true, directed, d.start);
      Kept(Doc(c.nodes, c.edges, d.start), undoStack) && Shows(c, d.nodes, d.edges, steps, directed, d.start)
  {
    var base := Cleared(d.nodes, d.edges, d.start);
    ResetBare(d.nodes, d.start);
    ResetEdgesBare(d.edges);
    ReplayBare(base, steps, true, directed, d.start);
    ReplayShows(d.nodes, d.edges, steps, directed, d.start);
    var c := Replay(base, steps, true, directed, d.start);
    FlagsStep(d, c.nodes, c.edges, undoStack);
  }

  /**
   * The timeout callback keeps the playback playable, and on a canvas that
   * replays the first `a` steps without recording them it gives the replay
   * of the first `a + 1`: the animation shows the steps in order.
   */
  lemma TickedReplays(base: Canvas, v: Canvas, p: PlayState, a: nat, directed: bool, start: Option<NodeId>)
    requires Playable(p) && a == p.index + 1 && p.clock.pending == []
    requires v == Replay(base, p.steps[..a], false, directed, start)
    ensures Playable(Ticked(v, p, a, directed, start).1)
    ensures !p.paused && a < |p.steps| ==>
      Ticked(v, p, a, directed, start).0 == Replay(base, p.steps[..a + 1], false, directed, start)
  {
    if !p.paused && a < |p.steps| {
      ReplaySnoc(base, p.steps, a, false, directed, start);
    }
  }

  /**
   * What `worker.onmessage` takes from a reply before animating: the steps,
   * both tables when there is an error and otherwise the ones the reply
   * carries; the position before the first step, unpaused, the pending
   * timeout cleared.
   */
  function Received(p: PlayState, reply: TraceResult): (r: PlayState)
    ensures r.steps == reply.steps && r.index == -1 && !r.completed && !r.paused
    ensures r.algorithm == p.algorithm && r.report == p.report && r.clock == Halted(p.clock)
    ensures reply.cycleEdges.Some? ==> r.dist == reply.distances && r.prev == reply.previous
    ensures reply.cycleEdges.None? ==>
      r.dist == (if reply.distances.Some? then reply.distances else p.dist)
      && r.prev == (if reply.previous.Some? then reply.previous else p.prev)
  {
    var error := reply.cycleEdges.Some?;
    p.(steps := reply.steps, index := -1, completed := false, paused := false, clock := Halted(p.clock),
       dist := if error || reply.distances.Some? then reply.distances else p.dist,
       prev := if error || reply.previous.Some? then reply.previous else p.prev)
  }

  /** The loop of `stepThrough`: the first `n` steps applied in order to `base`, recording highlights. */
  method Rebuild(base: Canvas, steps: seq<Step>, n: nat, directed: bool, start: Option<NodeId>) returns (c: Canvas)
    requires n <= |steps|
    ensures c == Replay(base, steps[..n], true, directed, start)
  {
    c := base;
    for i := 0 to n
      invariant c == Replay(base, steps[..i], true, directed, start)
    {
      ReplaySnoc(base, steps, i, true, directed, start);
      c := ApplyStep(c, steps[i], true, directed, start);
    }
  }

  /**
   * The position is inside the steps (the last one once completed), at most
   * one timeout is pending and it goes on at the next step, and handles are
   * never 0.
   */
  predicate Playable(p: PlayState) {
    -1 <= p.index < |p.steps| && (p.completed ==> p.index == |p.steps| - 1)
    && Single(p.clock) && (p.clock.pending != [] ==> p.clock.pending[0].next == p.index + 1)
    && 0 < p.clock.nextId && (p.clock.frame.Some? ==> 0 < p.clock.frame.value)
  }


  /**
   * The timeout callback of `animateSteps` going on at step `a`, as a change
   * to the canvas `v` and the playback `p`: nothing while paused; past the
   * last step the timeout is cleared, the run completes and the summary is
   * shown; otherwise step `a` is shown without touching the highlight sets,
   * becomes the current step, and the next timeout is set.
   */
  function Ticked(v: Canvas, p: PlayState, a: nat, directed: bool, start: Option<NodeId>): (r: (Canvas, PlayState))
    ensures r.1.steps == p.steps && r.1.algorithm == p.algorithm && r.1.paused == p.paused
    ensures r.1.dist == p.dist && r.1.prev == p.prev
    ensures p.paused ==> r == (v, p)
    ensures !p.paused && a >= |p.steps| ==>
      r.0 == v && r.1.completed && r.1.index == p.index && r.1.clock.frame.None?
      && r.1.report == Some(Summary(p.algorithm, p.steps, v.nodes, p.dist, p.prev, start))
    ensures !p.paused && a < |p.steps| ==>
      r.0 == ApplyStep(v, p.steps[a], false, directed, start) && r.1.index == a
      && r.1.completed == p.completed && r.1.report == p.report
      && r.1.clock.frame == Some(p.clock.nextId) && r.1.clock.pending == p.clock.pending + [Timer(p.clock.nextId, a + 1)]
  {
    if p.paused then (v, p)
    else if a >= |p.steps| then
      (v, p.(clock := Stopped(p.clock), completed := true,
             report := Some(Summary(p.algorithm, p.steps, v.nodes, p.dist, p.prev, start))))
    else
      (ApplyStep(v, p.steps[a], false, directed, start), p.(index := a, clock := Scheduled(p.clock, a + 1)))
  }

  /**
   * The page's globals, grouped: `doc` holds `nodes`, `edges` and
   * `startNodeId`; `tools` the modes, `selectedNodes` and the drag; `play` the
   * algorithm, `algorithmSteps`, `currentStepIndex`, `algorithmCompleted`,
   * `isPaused`, the animation's timeouts, the final tables and the last
   * summary; `marks` the three highlight sets.
   */
  class GraphEditor {
    var doc: Doc
    var undoStack: seq<Command>
    var tools: ToolState
    var play: PlayState
    var marks: Marks

    function View(): Canvas reads this { Canvas(doc.nodes, doc.edges, marks) }

    /** The clone `runAlgorithm` posts to the worker: ids, edge triples and the direction flag. */
    function Posted(): Snapshot reads this { Snapshot(Editor.Ids(doc.nodes), Keys(doc.edges), tools.directed) }

    ghost predicate Valid() reads this {
      Kept(doc, undoStack) && Playable(play)
    }

    /** The page as loaded. */
    constructor()
      ensures Valid()
      ensures doc == Doc([], [], None) && undoStack == [] && marks == Marks({}, {}, {})
      ensures tools == ToolState(false, false, false, [], None)
      ensures play == PlayState(None, [], -1, false, false, Clock([], None, 1), None, None, None)
    {
      doc, undoStack, marks := Doc([], [], None), [], Marks({}, {}, {});
      tools := ToolState(false, false, false, [], None);
      play := PlayState(None, [], -1, false, false, Clock([], None, 1), None, None, None);
      assert IdSet([]) == {};
    }

    // ------------------------------------------------------------ editing

    /**
     * `addNode`: a plain node with the next id at the placement spot, dragged
     * from where it appears; undoing the command it records gives back the
     * document.
     */
    method AddNode(width: int, height: int)
      requires Valid()
      modifies this
      ensures Valid()
      ensures var n := NodeRec(NextId(old(doc.nodes)), Spot(width, |old(doc.nodes)|), Spot(height, |old(doc.nodes)|), false, false);
        doc == old(doc).(nodes := old(doc.nodes) + [n]) && undoStack == old(undoStack) + [AddedNode(n)]
        && tools == old(tools).(dragged := Some(Drag(n.id, n.x, n.y, n.x, n.y)))
      ensures Editor.Undo(doc, undoStack[|undoStack| - 1]) == old(doc)
      ensures play == old(play) && marks == old(marks)
    {
      var x, y := Spot(width, |doc.nodes|), Spot(height, |doc.nodes|);
      var e := Editor.AddNode(doc, x, y);
      AddNodeStep(doc, x, y, undoStack);
      doc := e.doc;
      undoStack := undoStack + [e.command];
      tools := tools.(dragged := Some(Drag(e.command.node.id, x, y, x, y)));
    }

    /**
     * `handleMouseDown` on the node at `hit`: in edge mode the node joins the
     * selection, highlighted unless it is the first one again; outside edge and
     * delete modes a drag starts from where the node is.
     */
    method PressNode(hit: Option<nat>)
      requires Valid() && (hit.Some? ==> hit.value < |doc.nodes|)
      modifies this
      ensures Valid()
      ensures hit.Some? && tools.edgeMode ==>
        var k := hit.value;
        var nodes := old(doc.nodes);
        tools == old(tools).(selected := old(tools.selected) + [nodes[k].id])
        && doc == old(doc).(nodes := if old(tools.selected) != [] && old(tools.selected)[0] == nodes[k].id
                                     then nodes else Lit(nodes, k))
      ensures hit.Some? && !tools.edgeMode ==>
        var n := old(doc.nodes)[hit.value];
        doc == old(doc)
        && tools == if tools.deleteMode then old(tools) else old(tools).(dragged := Some(Drag(n.id, n.x, n.y, n.x, n.y)))
      ensures hit.None? ==> doc == old(doc) && tools == old(tools)
      ensures undoStack == old(undoStack) && play == old(play) && marks == old(marks)
    {
      if hit.None? {
        return;
      }
      var k := hit.value;
      var n := doc.nodes[k];
      if tools.edgeMode {
        if tools.selected == [] {
          tools := tools.(selected := [n.id]);
          FlagsStep(doc, Lit(doc.nodes, k), doc.edges, undoStack);
          doc := doc.(nodes := Lit(doc.nodes, k));
        } else if tools.selected[0] == n.id {
          tools := tools.(selected := tools.selected + [n.id]);
        } else {
          tools := tools.(selected := tools.selected + [n.id]);
          FlagsStep(doc, Lit(doc.nodes, k), doc.edges, undoStack);
          doc := doc.(nodes := Lit(doc.nodes, k));
        }
      } else if !tools.deleteMode {
        tools := tools.(dragged := Some(Drag(n.id, n.x, n.y, n.x, n.y)));
      }
    }

    /**
     * `handleMouseMove` while dragging: the dragged node follows the mouse,
     * kept a radius inside the canvas.
     */
    method MoveMouse(x: int, y: int, width: int, height: int)
      requires Valid()
      modifies this
      ensures Valid()
      ensures old(tools.dragged).None? ==> doc == old(doc) && tools == old(tools)
      ensures old(tools.dragged).Some? ==>
        var d := old(tools.dragged).value;
        var nx, ny := Clamp(x, Radius, width - Radius), Clamp(y, Radius, height - Radius);
        doc == old(doc).(nodes := Placed(old(doc.nodes), d.id, nx, ny))
        && tools == old(tools).(dragged := Some(d.(x := nx, y := ny)))
      ensures undoStack == old(undoStack) && play == old(play) && marks == old(marks)
    {
      if tools.dragged.Some? {
        var d := tools.dragged.value;
        var nx, ny := Clamp(x, Radius, width - Radius), Clamp(y, Radius, height - Radius);
        PlacedStep(doc, d.id, nx, ny, undoStack);
        doc := doc.(nodes := Placed(doc.nodes, d.id, nx, ny));
        tools := tools.(dragged := Some(d.(x := nx, y := ny)));
      }
    }

    /**
     * `handleMouseUp` over the node at `hit`: in edge mode with one node
     * selected a different node completes the selection and empty canvas
     * cancels it; a drag ends, recorded for undo when the node moved.
     */
    method Release(hit: Option<nat>)
      requires Valid() && (hit.Some? ==> hit.value < |doc.nodes|)
      modifies this
      ensures Valid()
      ensures var sel, nodes := old(tools.selected), old(doc.nodes);
        var one := tools.edgeMode && |sel| == 1;
        (one && hit.Some? && nodes[hit.value].id != sel[0] ==>
           tools.selected == sel + [nodes[hit.value].id] && doc == old(doc).(nodes := Lit(nodes, hit.value)))
        && (one && hit.None? ==> tools.selected == [] && doc == old(doc).(nodes := Unlit(nodes, sel)))
        && (!one || (hit.Some? && nodes[hit.value].id == sel[0]) ==> tools.selected == sel && doc == old(doc))
      ensures tools == old(tools).(selected := tools.selected, dragged := None)
      ensures var d := old(tools.dragged);
        undoStack == if d.Some? && (d.value.x != d.value.fromX || d.value.y != d.value.fromY)
                     then old(undoStack) + [MovedNode(d.value.id, d.value.fromX, d.value.fromY, d.value.x, d.value.y)]
                     else old(undoStack)
      ensures play == old(play) && marks == old(marks)
    {
      Complete(hit);
      EndDrag();
    }

    /** The selection half of `handleMouseUp`. */
    method Complete(hit: Option<nat>)
      requires Valid() && (hit.Some? ==> hit.value < |doc.nodes|)
      modifies this
      ensures Valid()
      ensures var sel, nodes := old(tools.selected), old(doc.nodes);
        var one := tools.edgeMode && |sel| == 1;
        (one && hit.Some? && nodes[hit.value].id != sel[0] ==>
           tools.selected == sel + [nodes[hit.value].id] && doc == old(doc).(nodes := Lit(nodes, hit.value)))
        && (one && hit.None? ==> tools.selected == [] && doc == old(doc).(nodes := Unlit(nodes, sel)))
        && (!one || (hit.Some? && nodes[hit.value].id == sel[0]) ==> tools.selected == sel && doc == old(doc))
      ensures tools == old(tools).(selected := tools.selected)
      ensures undoStack == old(undoStack) && play == old(play) && marks == old(marks)
    {
      if tools.edgeMode && |tools.selected| == 1 && hit.Some? && doc.nodes[hit.value].id != tools.selected[0] {
        tools := tools.(selected := tools.selected + [doc.nodes[hit.value].id]);
        FlagsStep(doc, Lit(doc.nodes, hit.value), doc.edges, undoStack);
        doc := doc.(nodes := Lit(doc.nodes, hit.value));
      } else if tools.edgeMode && |tools.selected| == 1 && hit.None? {
        FlagsStep(doc, Unlit(doc.nodes, tools.selected), doc.edges, undoStack);
        doc := doc.(nodes := Unlit(doc.nodes, tools.selected));
        tools := tools.(selected := []);
      }
    }

    /** The drag half of `handleMouseUp`: a drag ends, recorded for undo when the node moved. */
    method EndDrag()
      requires Valid()
      modifies this
      ensures Valid()
      ensures tools == old(tools).(dragged := None)
      ensures var d := old(tools.dragged);
        undoStack == if d.Some? && (d.value.x != d.value.fromX || d.value.y != d.value.fromY)
                     then old(undoStack) + [MovedNode(d.value.id, d.value.fromX, d.value.fromY, d.value.x, d.value.y)]
                     else old(undoStack)
      ensures doc == old(doc) && play == old(play) && marks == old(marks)
    {
      if tools.dragged.Some? {
        var d := tools.dragged.value;
        if d.x != d.fromX || d.y != d.fromY {
          var c := MovedNode(d.id, d.fromX, d.fromY, d.x, d.y);
          MovedStep(doc, c, undoStack);
          undoStack := undoStack + [c];
        }
        tools := tools.(dragged := None);
      }
    }

    /**
     * `handleCanvasClick`, only in delete mode: the node at `nodeHit` goes with
     * its edges, or else the edge at `edgeHit`; undoing the recorded command
     * gives back the nodes and the edges as a multiset.
     */
    method Click(nodeHit: Option<nat>, edgeHit: Option<nat>)
      requires Valid() && (nodeHit.Some? ==> nodeHit.value < |doc.nodes|) && (edgeHit.Some? ==> edgeHit.value < |doc.edges|)
      modifies this
      ensures Valid()
      ensures !tools.deleteMode || (nodeHit.None? && edgeHit.None?) ==> doc == old(doc) && undoStack == old(undoStack)
      ensures tools.deleteMode && nodeHit.Some? ==>
        var e := DeleteNode(old(doc), nodeHit.value);
        var u := Editor.Undo(doc, e.command);
        doc == e.doc && undoStack == old(undoStack) + [e.command]
        && u.nodes == old(doc.nodes) && multiset(u.edges) == multiset(old(doc.edges))
      ensures tools.deleteMode && nodeHit.None? && edgeHit.Some? ==>
        var e := DeleteEdge(old(doc), edgeHit.value);
        var u := Editor.Undo(doc, e.command);
        doc == e.doc && undoStack == old(undoStack) + [e.command]
        && u == old(doc).(edges := u.edges) && multiset(u.edges) == multiset(old(doc.edges))
      ensures tools == old(tools) && play == old(play) && marks == old(marks)
    {
      if !tools.deleteMode {
        return;
      }
      if nodeHit.Some? {
        var e := DeleteNode(doc, nodeHit.value);
        DeleteNodeStep(doc, nodeHit.value, undoStack);
        doc := e.doc;
        undoStack := undoStack + [e.command];
      } else if edgeHit.Some? {
        var e := DeleteEdge(doc, edgeHit.value);
        DeleteEdgeStep(doc, edgeHit.value, undoStack);
        doc := e.doc;
        undoStack := undoStack + [e.command];
      }
    }

    /** `toggleEdgeMode`: the selection is dropped (its highlights stay) and delete mode ends. */
    method ToggleEdgeMode()
      requires Valid()
      modifies this
      ensures Valid()
      ensures tools == old(tools).(edgeMode := !old(tools.edgeMode), deleteMode := false, selected := [])
      ensures doc == old(doc) && undoStack == old(undoStack) && play == old(play) && marks == old(marks)
    {
      tools := tools.(edgeMode := !tools.edgeMode, deleteMode := false, selected := []);
    }

    /** `toggleDeleteMode`: the selection is dropped and edge mode ends. */
    method ToggleDeleteMode()
      requires Valid()
      modifies this
      ensures Valid()
      ensures tools == old(tools).(deleteMode := !old(tools.deleteMode), edgeMode := false, selected := [])
      ensures doc == old(doc) && undoStack == old(undoStack) && play == old(play) && marks == old(marks)
    {
      tools := tools.(deleteMode := !tools.deleteMode, edgeMode := false, selected := []);
    }

    /** `toggleDirected`. */
    method ToggleDirected()
      requires Valid()
      modifies this
      ensures Valid()
      ensures tools == old(tools).(directed := !old(tools.directed))
      ensures doc == old(doc) && undoStack == old(undoStack) && play == old(play) && marks == old(marks)
    {
      tools := tools.(directed := !tools.directed);
    }

    /**
     * The Escape key: edge mode ends with the selected nodes unhighlighted,
     * or else delete mode ends.
     */
    method Escape()
      requires Valid()
      modifies this
      ensures Valid()
      ensures old(tools.edgeMode) ==>
        doc == old(doc).(nodes := Unlit(old(doc.nodes), old(tools.selected)))
        && tools == old(tools).(edgeMode := false, deleteMode := false, selected := [])
      ensures !old(tools.edgeMode) && old(tools.deleteMode) ==>
        doc == old(doc) && tools == old(tools).(deleteMode := false, selected := [])
      ensures !old(tools.edgeMode) && !old(tools.deleteMode) ==> doc == old(doc) && tools == old(tools)
      ensures undoStack == old(undoStack) && play == old(play) && marks == old(marks)
    {
      if tools.edgeMode {
        FlagsStep(doc, Unlit(doc.nodes, tools.selected), doc.edges, undoStack);
        doc := doc.(nodes := Unlit(doc.nodes, tools.selected));
        tools := tools.(selected := []);
        ToggleEdgeMode();
      } else if tools.deleteMode {
        ToggleDeleteMode();
      }
    }

    /**
     * `saveEdgeWeight` with the parsed weight (`None` when it is not a
     * number), with the corrected check that both selected ids are nodes: an
     * unparsable weight changes nothing; otherwise the selection is dropped and
     * unhighlighted, and an added edge is recorded (undoing it gives back the
     * multiset of edge triples, by `UndoAddEdge`).
     */
    method SaveEdgeWeight(weight: Option<int>) returns (r: EdgeOutcome)
      requires Valid()
      modifies this
      ensures Valid()
      ensures r == SaveEdge(old(doc), old(tools.selected), weight, tools.directed)
      ensures r == BadWeight ==> doc == old(doc) && tools == old(tools)
      ensures r != BadWeight ==>
        doc.nodes == Unlit(old(doc.nodes), old(tools.selected)) && doc.start == old(doc.start)
        && tools == old(tools).(selected := [])
      ensures r.Added? ==>
        doc.edges == r.edit.doc.edges && undoStack == old(undoStack) + [r.edit.command]
      ensures !r.Added? ==> doc.edges == old(doc.edges) && undoStack == old(undoStack)
      ensures play == old(play) && marks == old(marks)
    {
      r := SaveEdge(doc, tools.selected, weight, tools.directed);
      if r == BadWeight {
        return;
      }
      SavedStep(doc, tools.selected, weight, tools.directed, undoStack);
      if r.Added? {
        doc, undoStack := Doc(Unlit(doc.nodes, tools.selected), r.edit.doc.edges, doc.start), undoStack + [r.edit.command];
      } else {
        doc := doc.(nodes := Unlit(doc.nodes, tools.selected));
      }
      tools := tools.(selected := []);
    }

    /**
     * `saveStartNode`: a blank entry, or one that is not the id of a node,
     * keeps everything; otherwise the start is that node and it alone carries
     * the start flag.
     */
    method SaveStartNode(entry: Entry) returns (err: Option<StartError>)
      requires Valid()
      modifies this
      ensures Valid()
      ensures err == Some(EmptyEntry) <==> entry.Blank?
      ensures err == Some(UnknownNode) <==> entry.NaN? || (entry.Number? && entry.value !in Editor.Ids(old(doc.nodes)))
      ensures err.None? ==>
        entry.Number? && doc == old(doc).(nodes := Starred(old(doc.nodes), Some(entry.value)), start := Some(entry.value))
      ensures err.Some? ==> doc == old(doc)
      ensures undoStack == old(undoStack) && tools == old(tools) && play == old(play) && marks == old(marks)
    {
      match entry
      case Blank =>
        err := Some(EmptyEntry);
      case NaN =>
        err := Some(UnknownNode);
      case Number(v) =>
        if v !in Editor.Ids(doc.nodes) {
          err := Some(UnknownNode);
        } else {
          StartStep(doc, v, undoStack);
          doc := Doc(Starred(doc.nodes, Some(v)), doc.edges, Some(v));
          err := None;
        }
    }

    /**
     * `undo`: with an empty stack nothing changes; otherwise the top command
     * is popped and undone.
     */
    method Undo() returns (done: bool)
      requires Valid()
      modifies this
      ensures Valid()
      ensures done <==> old(undoStack) != []
      ensures done ==>
        undoStack == old(undoStack)[..|old(undoStack)| - 1]
        && doc == Editor.Undo(old(doc), old(undoStack)[|old(undoStack)| - 1])
      ensures !done ==> doc == old(doc) && undoStack == old(undoStack)
      ensures tools == old(tools) && play == old(play) && marks == old(marks)
    {
      if undoStack == [] {
        return false;
      }
      var c := undoStack[|undoStack| - 1];
      PopStep(doc, undoStack);
      doc := Editor.Undo(doc, c);
      undoStack := undoStack[..|undoStack| - 1];
      done := true;
    }

    // ------------------------------------------------------------ running and playback

    /** The display flags and the highlight sets cleared, the start flag on the node `start` names. */
    method ClearFlags(start: Option<NodeId>)
      requires Valid()
      modifies this
      ensures Valid()
      ensures View() == Cleared(old(doc.nodes), old(doc.edges), start) && doc.start == old(doc.start)
      ensures undoStack == old(undoStack) && tools == old(tools) && play == old(play)
    {
      ResetBare(doc.nodes, start);
      ResetEdgesBare(doc.edges);
      FlagsStep(doc, ResetNodes(doc.nodes, start), ResetEdges(doc.edges), undoStack);
      doc := doc.(nodes := ResetNodes(doc.nodes, start), edges := ResetEdges(doc.edges));
      marks := Marks({}, {}, {});
    }

    /**
     * `showStartNodeModal`: the algorithm is chosen, the steps and tables are
     * dropped, the animation is stopped with nothing left pending, and every
     * flag and highlight set is cleared (the start node is kept).
     */
    method SelectAlgorithm(a: Algorithm)
      requires Valid()
      modifies this
      ensures Valid()
      ensures play == PlayState(Some(a), [], -1, false, false, Stopped(old(play.clock)), None, None, old(play.report))
      ensures play.clock.pending == []
      ensures View() == Cleared(old(doc.nodes), old(doc.edges), None) && doc.start == old(doc.start)
      ensures undoStack == old(undoStack) && tools == old(tools)
    {
      play := PlayState(Some(a), [], -1, false, false, Stopped(play.clock), None, None, play.report);
      ClearFlags(None);
    }

    /**
     * `resetCanvas`: an empty graph, no algorithm, no start, nothing to undo,
     * both modes off and the animation stopped with nothing pending.  The
     * direction flag, a drag in progress and the last summary stay.
     */
    method Reset()
      requires Valid()
      modifies this
      ensures Valid()
      ensures doc == Doc([], [], None) && undoStack == [] && marks == Marks({}, {}, {})
      ensures tools == ToolState(old(tools.directed), false, false, [], old(tools.dragged))
      ensures play == PlayState(None, [], -1, false, false, Stopped(old(play.clock)), None, None, old(play.report))
      ensures play.clock.pending == []
    {
      play := PlayState(None, [], -1, false, false, Stopped(play.clock), None, None, play.report);
      doc, undoStack, marks := Doc([], [], None), [], Marks({}, {}, {});
      tools := ToolState(tools.directed, false, false, [], tools.dragged);
      assert IdSet([]) == {};
    }

    /**
     * `runAlgorithm` and the replies of its worker: refused (changing nothing)
     * exactly when a guard fails; otherwise the playback is reset on a cleared
     * canvas, the reply's steps, distances and predecessors are taken, and the
     * animation has shown the first step (the start node) and waits to go on
     * at the second.  A Bellman-Ford run delivers the steps twice, and the
     * second delivery starts the animation again from the first step.
     */
    method Run() returns (o: Engine.Outcome)
      requires Valid()
      modifies this
      ensures Valid()
      ensures o.Refused? <==> Engine.Guard(old(Posted()), doc.start, play.algorithm).Some?
      ensures o.Refused? ==>
        o.why == Engine.Guard(old(Posted()), doc.start, play.algorithm).value
        && View() == old(View()) && play == old(play)
      ensures o.Ran? ==>
        var s := play.steps;
        s == o.result.steps && s != [] && s[0] == NodeStep(doc.start.value)
        && play.dist == o.result.distances && play.prev == o.result.previous
        && play.index == 0 && !play.completed && !play.paused && play.report == old(play.report)
        && play.clock.frame.Some? && play.clock.pending == [Timer(play.clock.frame.value, 1)]
        && View() == ApplyStep(Cleared(old(doc.nodes), old(doc.edges), doc.start), s[0], false, tools.directed, doc.start)
      ensures o.Ran? && play.algorithm.value != BellmanFord ==>
        forall v :: v in VisitIds(play.steps) <==> Reachable(old(Posted()), doc.start.value, v)
      ensures o.Ran? && play.dist.Some? ==>
        (o.result.cycleEdges.None? <==> Engine.AllCorrect(old(Posted()), doc.start.value, play.dist.value))
      ensures doc.start == old(doc.start) && play.algorithm == old(play.algorithm)
      ensures undoStack == old(undoStack) && tools == old(tools)
    {
      o := Engine.Run(Posted(), doc.start, play.algorithm);
      if o.Refused? {
        return;
      }
      play := play.(steps := [], index := -1, completed := false, paused := false,
                    clock := Stopped(play.clock), dist := None, prev := None);
      ClearFlags(doc.start);
      ghost var c0 := View();
      Deliver(o.result);
      if play.algorithm == Some(BellmanFord) {
        Deliver(o.result.(cycleEdges := None));
        ApplyTwice(c0, o.result.steps[0], tools.directed, doc.start);
      }
    }

    /**
     * `worker.onmessage` on a reply: with an error the steps and both tables
     * are taken; without one the steps are taken and, when there are any, the
     * tables the reply carries; then the animation starts from the first step.
     * A reply without an error and without steps changes nothing else.  (The
     * reply comes after `runAlgorithm` reset the position, or repeats the
     * steps already taken.)
     */
    method Deliver(reply: TraceResult)
      requires Valid() && (play.index == -1 || reply.steps == play.steps)
      modifies this
      ensures Valid()
      ensures reply.cycleEdges.None? && reply.steps == [] ==> View() == old(View()) && play == old(play).(steps := [])
      ensures reply.cycleEdges.Some? || reply.steps != [] ==>
        (View(), play) == Ticked(old(View()), Received(old(play), reply), 0, tools.directed, doc.start)
      ensures doc.start == old(doc.start) && undoStack == old(undoStack) && tools == old(tools)
    {
      if reply.cycleEdges.None? && reply.steps == [] {
        play := play.(steps := []);
        return;
      }
      play := Received(play, reply);
      Tick(0);
    }

    /**
     * `animateSteps`: the pending timeout is cleared (its handle stays) and
     * the callback runs at once on the step after the current one.
     */
    method Animate()
      requires Valid()
      modifies this
      ensures Valid()
      ensures var p := old(play).(clock := Halted(old(play.clock)));
        Ticked(old(View()), p, p.index + 1, tools.directed, doc.start) == (View(), play)
      ensures doc.start == old(doc.start) && undoStack == old(undoStack) && tools == old(tools)
    {
      var a := play.index + 1;
      play := play.(clock := Halted(play.clock));
      Tick(a);
    }

    /**
     * `animateNextStepWithTimeout` going on at `a`: nothing while paused;
     * past the last step the animation stops, completes and shows its
     * summary; otherwise step `a` is shown (without touching the highlight
     * sets), becomes the current step, and a timeout for the next is set.
     */
    method Tick(a: nat)
      requires Valid() && a == play.index + 1 && play.clock.pending == []
      modifies this
      ensures Valid()
      ensures Ticked(old(View()), old(play), a, tools.directed, doc.start) == (View(), play)
      ensures doc.start == old(doc.start) && undoStack == old(undoStack) && tools == old(tools)
    {
      if play.paused {
        return;
      }
      if a >= |play.steps| {
        var summary := Summarize(play.algorithm, play.steps, doc.nodes, play.dist, play.prev, doc.start);
        play := play.(clock := Stopped(play.clock), completed := true, report := Some(summary));
        return;
      }
      var c := ApplyStep(View(), play.steps[a], false, tools.directed, doc.start);
      FlagsStep(doc, c.nodes, c.edges, undoStack);
      doc := doc.(nodes := c.nodes, edges := c.edges);
      play := play.(index := a, clock := Scheduled(play.clock, a + 1));
    }

    /** The browser runs the pending timeout: its callback goes on at the step after the current one. */
    method Fire()
      requires Valid() && play.clock.pending != []
      modifies this
      ensures Valid()
      ensures var p := old(play).(clock := old(play.clock).(pending := []));
        Ticked(old(View()), p, p.index + 1, tools.directed, doc.start) == (View(), play)
      ensures doc.start == old(doc.start) && undoStack == old(undoStack) && tools == old(tools)
    {
      var t := play.clock.pending[0];
      ghost var p := play.(clock := play.clock.(pending := []));
      assert play.clock.pending[1..] == [];
      play := play.(clock := play.clock.(pending := play.clock.pending[1..]));
      assert play == p;
      Tick(t.next);
    }

    /** The pause button. */
    method Pause()
      requires Valid()
      modifies this
      ensures Valid()
      ensures play == old(play).(paused := true)
      ensures doc == old(doc) && marks == old(marks) && undoStack == old(undoStack) && tools == old(tools)
    {
      play := play.(paused := true);
    }

    /** The resume button: unpaused, and the animation goes on if it has a timeout handle. */
    method Resume()
      requires Valid()
      modifies this
      ensures Valid()
      ensures old(play.clock).frame.None? ==> View() == old(View()) && play == old(play).(paused := false)
      ensures old(play.clock).frame.Some? ==>
        var p := old(play).(paused := false, clock := Halted(old(play.clock)));
        Ticked(old(View()), p, p.index + 1, tools.directed, doc.start) == (View(), play)
      ensures doc.start == old(doc.start) && undoStack == old(undoStack) && tools == old(tools)
    {
      play := play.(paused := false);
      if play.clock.frame.Some? {
        Animate();
      }
    }

    /**
     * `stepThrough`: the animation is stopped (and unpaused if it had a
     * handle); with no steps nothing else happens; a completed run starts
     * again; the next step becomes current and the canvas is rebuilt by
     * replaying every step up to it from a cleared canvas (which shows exactly
     * what those steps name, by `RebuildStep`); past the last step the run
     * completes and shows its summary.
     */
    method StepThrough()
      requires Valid()
      modifies this
      ensures Valid()
      ensures play.clock == (if old(play.clock).frame.Some? then Stopped(old(play.clock)) else old(play.clock))
      ensures play.clock.pending == []
      ensures play.paused == (old(play.paused) && old(play.clock).frame.None?)
      ensures play.steps == old(play.steps) && play.algorithm == old(play.algorithm)
      ensures play.dist == old(play.dist) && play.prev == old(play.prev)
      ensures doc.start == old(doc.start) && undoStack == old(undoStack) && tools == old(tools)
      ensures play.steps == [] ==>
        View() == old(View()) && play.index == old(play.index) && play.completed == old(play.completed)
        && play.report == old(play.report)
      ensures play.steps != [] && !old(play.completed) && old(play.index) == |play.steps| - 1 ==>
        View() == old(View()) && play.index == old(play.index) && play.completed
        && play.report == Some(Summary(play.algorithm, play.steps, doc.nodes, play.dist, play.prev, doc.start))
      ensures play.steps != [] && (old(play.completed) || old(play.index) < |play.steps| - 1) ==>
        var shown := play.steps[..play.index + 1];
        play.index == (if old(play.completed) then 0 else old(play.index) + 1)
        && !play.completed && play.report == old(play.report)
        && View() == Replay(Cleared(old(doc.nodes), old(doc.edges), doc.start), shown, true, tools.directed, doc.start)
    {
      Hold();
      if play.steps == [] {
        return;
      }
      if play.completed || play.index < |play.steps| - 1 {
        Advance();
      } else {
        Finish();
      }
    }

    /**
     * The usual branch of `stepThrough`: a completed run rewinds to before
     * the first step (the flags and sets this clears are cleared again by the
     * replay), the next step becomes current, and the canvas is rebuilt.
     */
    method Advance()
      requires Valid() && play.clock.pending == [] && play.steps != [] && (play.completed || play.index < |play.steps| - 1)
      modifies this
      ensures Valid()
      ensures play == old(play).(index := if old(play.completed) then 0 else old(play.index) + 1, completed := false)
      ensures doc.start == old(doc.start) && undoStack == old(undoStack) && tools == old(tools)
      ensures View() == Replay(Cleared(old(doc.nodes), old(doc.edges), doc.start), play.steps[..play.index + 1], true, tools.directed, doc.start)
    {
      var next := if play.completed then 0 else play.index + 1;
      play := play.(index := next, completed := false);
      ShowUpTo(next);
    }

    /** The last branch of `stepThrough`: past the last step the run completes and shows its summary. */
    method Finish()
      requires Valid() && play.clock.pending == [] && !play.completed && play.index == |play.steps| - 1
      modifies this
      ensures Valid()
      ensures play == old(play).(completed := true, report := Some(Summary(play.algorithm, play.steps, doc.nodes, play.dist, play.prev, doc.start)))
      ensures doc == old(doc) && marks == old(marks) && undoStack == old(undoStack) && tools == old(tools)
    {
      var summary := Summarize(play.algorithm, play.steps, doc.nodes, play.dist, play.prev, doc.start);
      play := play.(completed := true, report := Some(summary));
    }

    /** The start of `stepThrough`: a timeout with a handle is cleared and the handle dropped, unpausing. */
    method Hold()
      requires Valid()
      modifies this
      ensures Valid()
      ensures play == old(play).(clock := if old(play.clock).frame.Some? then Stopped(old(play.clock)) else old(play.clock),
                                 paused := old(play.paused) && old(play.clock).frame.None?)
      ensures play.clock.pending == []
      ensures doc == old(doc) && marks == old(marks) && undoStack == old(undoStack) && tools == old(tools)
    {
      if play.clock.frame.Some? {
        if play.paused {
          play := play.(paused := false);
        }
        play := play.(clock := Stopped(play.clock));
      }
    }

    /**
     * The rest of `stepThrough`: the flags and sets are cleared and steps
     * `0..k` are applied in order, recording their highlights.
     */
    method ShowUpTo(k: nat)
      requires Valid() && k < |play.steps|
      modifies this
      ensures Valid()
      ensures doc.start == old(doc.start) && undoStack == old(undoStack) && tools == old(tools) && play == old(play)
      ensures View() == Replay(Cleared(old(doc.nodes), old(doc.edges), doc.start), play.steps[..k + 1], true, tools.directed, doc.start)
    {
      var steps, directed, start := play.steps, tools.directed, doc.start;
      var c := Rebuild(Cleared(doc.nodes, doc.edges, start), steps, k + 1, directed, start);
      RebuildStep(doc, undoStack, steps[..k + 1], directed);
      doc := Doc(c.nodes, c.edges, start);
      marks := c.marks;
    }
  }
}
