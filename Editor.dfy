/**
 * The editable graph and its undo commands: the node and edge records the
 * editor keeps in its `nodes` and `edges` arrays, the commands `addNode`,
 * `saveEdgeWeight`, `handleCanvasClick` and `handleMouseUp` push on the undo
 * stack, what each edit does to the document (nodes, edges, start node), and
 * what `undo` does with each command.
 *
 * The round trips are stated on values: undoing an edit gives back the nodes
 * exactly and the edges as a multiset (undo appends restored edges at the end).
 * `Shape` abstracts a document to its node ids and the multiset of its edge
 * triples; `Consistent` says a whole stack can be undone in order with every
 * command meeting the condition under which its undo keeps the graph
 * well formed, which is what lets the editor keep every edge between nodes.
 */
module Editor {
  import opened Sequences
  import opened Graph

  /** A node record (`radius` is constant and `isDragging` only drives the cursor). */
  datatype NodeRec = NodeRec(id: NodeId, x: int, y: int, highlighted: bool, isStart: bool)

  /** An edge record (`isNew` only drives a one-second glow). */
  datatype EdgeRec = EdgeRec(from: NodeId, to: NodeId, weight: int, highlighted: bool, shortestPath: bool)

  /** The entries of `undoStack`, one per `action` tag. */
  datatype Command =
    | AddedNode(node: NodeRec)
    | AddedEdge(edge: EdgeRec)
    | DeletedNode(node: NodeRec, removedEdges: seq<EdgeRec>)
    | MovedNode(nodeId: NodeId, oldX: int, oldY: int, newX: int, newY: int)
    | DeletedEdge(edge: EdgeRec)

  /** What the edit commands act on: `nodes`, `edges` and `startNodeId`. */
  datatype Doc = Doc(nodes: seq<NodeRec>, edges: seq<EdgeRec>, start: Option<NodeId>)

  /** An edit's new document and the command it records. */
  datatype Edit = Edit(doc: Doc, command: Command)

  function IdOf(n: NodeRec): int { n.id }

  /** The identity triple an edge is matched by (`from`, `to`, `weight`). */
  function Key(e: EdgeRec): Edge { Edge(e.from, e.to, e.weight) }

  function Ids(nodes: seq<NodeRec>): seq<NodeId> { Map(nodes, IdOf) }

  function Keys(edges: seq<EdgeRec>): seq<Edge> { Map(edges, Key) }

  /** The test `findIndex` matches edges by: the same triple as `e`. */
  function SameKey(e: EdgeRec): EdgeRec -> bool { (f: EdgeRec) => Key(f) == Key(e) }

  ghost function IdSet(nodes: seq<NodeRec>): set<NodeId> { set v | v in Ids(nodes) }

  lemma IdSetMembers(nodes: seq<NodeRec>)
    ensures forall v :: v in IdSet(nodes) <==> exists i :: 0 <= i < |nodes| && nodes[i].id == v
  {
    forall v | v in IdSet(nodes) ensures exists i :: 0 <= i < |nodes| && nodes[i].id == v {
      var i :| 0 <= i < |Ids(nodes)| && Ids(nodes)[i] == v;
      assert nodes[i].id == v;
    }
    forall v | exists i :: 0 <= i < |nodes| && nodes[i].id == v ensures v in IdSet(nodes) {
      var i :| 0 <= i < |nodes| && nodes[i].id == v;
      assert Ids(nodes)[i] == v;
    }
  }

  /** The ids ascend strictly along the list, so no id occurs twice. */
  ghost predicate Ascending(nodes: seq<NodeRec>) {
    forall i, j :: 0 <= i < j < |nodes| ==> nodes[i].id < nodes[j].id
  }

  /** `e` has `id` as one of its ends. */
  predicate Touches(e: EdgeRec, id: NodeId) { e.from == id || e.to == id }

  // ---------------------------------------------------------------- node ids

  /** `Math.max(...nodes.map(n => n.id))`. */
  function MaxId(nodes: seq<NodeRec>): (m: NodeId)
    requires nodes != []
    ensures forall i :: 0 <= i < |nodes| ==> nodes[i].id <= m
    ensures exists i :: 0 <= i < |nodes| && nodes[i].id == m
  {
    if |nodes| == 1 then nodes[0].id
    else
      var m := MaxId(nodes[1..]);
      assert forall i :: 1 <= i < |nodes| ==> nodes[i] == nodes[1..][i - 1];
      if nodes[0].id >= m then nodes[0].id
      else
        var k :| 0 <= k < |nodes[1..]| && nodes[1..][k].id == m;
        assert nodes[k + 1].id == m;
        m
  }

  /** The id `addNode` gives a new node: above every id, one more than the largest, 1 for an empty graph. */
  function NextId(nodes: seq<NodeRec>): (r: NodeId)
    ensures forall i :: 0 <= i < |nodes| ==> nodes[i].id < r
    ensures nodes == [] ==> r == 1
    ensures nodes != [] ==> exists i :: 0 <= i < |nodes| && nodes[i].id == r - 1
  {
    if nodes == [] then 1 else MaxId(nodes) + 1
  }

  // ---------------------------------------------------------------- edits

  /**
   * `addNode` with the placement already computed: a plain record with a fresh
   * id at the end of the list; the start node is left alone.
   */
  function AddNode(d: Doc, x: int, y: int): (r: Edit)
    ensures r.command.AddedNode? && r.command.node == NodeRec(NextId(d.nodes), x, y, false, false)
    ensures r.doc == d.(nodes := d.nodes + [r.command.node])
  {
    var n := NodeRec(NextId(d.nodes), x, y, false, false);
    Edit(d.(nodes := d.nodes + [n]), AddedNode(n))
  }

  /**
   * The node branch of `handleCanvasClick` on the clicked node `d.nodes[i]`: the
   * first node with its id leaves the list, so do exactly the edges touching
   * that id (recorded, in order, with the command), and the start node is
   * cleared if it was that id.
   */
  function DeleteNode(d: Doc, i: nat): (r: Edit)
    requires i < |d.nodes|
    ensures r.command.DeletedNode? && r.command.node.id == d.nodes[i].id
    ensures multiset(r.doc.nodes) == multiset(d.nodes) - multiset{r.command.node}
    ensures r.command.node in d.nodes && |r.doc.nodes| == |d.nodes| - 1
    ensures forall e :: e in r.doc.edges <==> e in d.edges && !Touches(e, d.nodes[i].id)
    ensures forall e :: e in r.command.removedEdges <==> e in d.edges && Touches(e, d.nodes[i].id)
    ensures multiset(r.doc.edges) + multiset(r.command.removedEdges) == multiset(d.edges)
    ensures r.doc.start == if d.start == Some(d.nodes[i].id) then None else d.start
  {
    var x := d.nodes[i].id;
    var p := (n: NodeRec) => n.id == x;
    assert p(d.nodes[i]);
    var k := FindFirst(d.nodes, p);
    var removed := d.nodes[k];
    var touching := (e: EdgeRec) => Touches(e, removed.id);
    var avoiding := (e: EdgeRec) => !Touches(e, removed.id);
    FilterPartition(d.edges, avoiding, touching);
    Edit(Doc(RemoveAt(d.nodes, k), Filter(d.edges, avoiding), if d.start == Some(removed.id) then None else d.start),
         DeletedNode(removed, Filter(d.edges, touching)))
  }

  /**
   * The edge branch of `handleCanvasClick` on the clicked edge `d.edges[j]`: the
   * first edge with the same triple leaves the list and is recorded.
   */
  function DeleteEdge(d: Doc, j: nat): (r: Edit)
    requires j < |d.edges|
    ensures r.command.DeletedEdge? && Key(r.command.edge) == Key(d.edges[j])
    ensures r.command.edge in d.edges
    ensures multiset(r.doc.edges) == multiset(d.edges) - multiset{r.command.edge}
    ensures r.doc.nodes == d.nodes && r.doc.start == d.start
  {
    assert SameKey(d.edges[j])(d.edges[j]);
    var k := FindFirst(d.edges, SameKey(d.edges[j]));
    Edit(d.(edges := RemoveAt(d.edges, k)), DeletedEdge(d.edges[k]))
  }

  /** Some edge already joins `from` to `to` under the direction rules (`edges.some(...)`). */
  predicate Joined(edges: seq<EdgeRec>, from: NodeId, to: NodeId, directed: bool) {
    exists e :: e in edges && Connects(Key(e), from, to, directed)
  }

  /** How `saveEdgeWeight` ends. */
  datatype EdgeOutcome = BadWeight | TooFewSelected | MissingNode | Duplicate | Added(edit: Edit)

  /**
   * `saveEdgeWeight` as written: an unparsable weight is refused first, then a
   * selection of fewer than two nodes, then a second edge between two distinct
   * nodes already joined; a self-loop is always added.  The selected ids are
   * not checked against the current nodes.
   */
  function SaveEdgeAsWritten(d: Doc, selected: seq<NodeId>, weight: Option<int>, directed: bool): (r: EdgeOutcome)
    ensures r != MissingNode
    ensures r == BadWeight <==> weight.None?
    ensures r == TooFewSelected <==> weight.Some? && |selected| < 2
    ensures r == Duplicate <==> weight.Some? && |selected| >= 2 && selected[0] != selected[1]
                                 && Joined(d.edges, selected[0], selected[1], directed)
    ensures r.Added? ==> r.edit.command == AddedEdge(EdgeRec(selected[0], selected[1], weight.value, false, false))
                         && r.edit.doc == d.(edges := d.edges + [r.edit.command.edge])
  {
    if weight.None? then BadWeight
    else if |selected| < 2 then TooFewSelected
    else
      var from, to := selected[0], selected[1];
      if Joined(d.edges, from, to, directed) && from != to then Duplicate
      else
        var e := EdgeRec(from, to, weight.value, false, false);
        Added(Edit(d.(edges := d.edges + [e]), AddedEdge(e)))
  }

  /**
   * `saveEdgeWeight` corrected: a selected id that is no longer a node (its
   * node was removed by `undo` after it was selected) refuses the edge, as a
   * too short selection does; otherwise it behaves as written.
   */
  function SaveEdge(d: Doc, selected: seq<NodeId>, weight: Option<int>, directed: bool): (r: EdgeOutcome)
    ensures r == MissingNode <==> weight.Some? && |selected| >= 2
                                  && (selected[0] !in Ids(d.nodes) || selected[1] !in Ids(d.nodes))
    ensures r != MissingNode ==> r == SaveEdgeAsWritten(d, selected, weight, directed)
  {
    if weight.Some? && |selected| >= 2 && (selected[0] !in Ids(d.nodes) || selected[1] !in Ids(d.nodes))
    then MissingNode
    else SaveEdgeAsWritten(d, selected, weight, directed)
  }

  /** `nodes.find(n => n.id === id)` moved to (x, y), if there is one. */
  function Placed(nodes: seq<NodeRec>, id: NodeId, x: int, y: int): (r: seq<NodeRec>)
    ensures Ids(r) == Ids(nodes)
    ensures forall i :: 0 <= i < |nodes| && nodes[i].id != id ==> r[i] == nodes[i]
  {
    var k := FindFirst(nodes, (n: NodeRec) => n.id == id);
    if k == -1 then nodes else nodes[k := nodes[k].(x := x, y := y)]
  }

  // ---------------------------------------------------------------- undo

  /**
   * `undo` on a popped command: an added node is filtered out by id (clearing
   * the start node if it was that id), an added edge loses the first edge with
   * its triple, a deleted node comes back with its edges and the node list is
   * sorted by id (the start node is not restored), a move puts the first node
   * with that id back, and a deleted edge is appended again.
   */
  function Undo(d: Doc, c: Command): (r: Doc)
    ensures c.AddedNode? ==> r.start == if d.start == Some(c.node.id) then None else d.start
    ensures !c.AddedNode? ==> r.start == d.start
    ensures c.DeletedNode? ==> SortedBy(r.nodes, IdOf) && multiset(r.nodes) == multiset(d.nodes) + multiset{c.node}
    ensures c.AddedNode? ==> forall n :: n in r.nodes <==> n in d.nodes && n.id != c.node.id
    ensures c.AddedEdge? || c.DeletedEdge? ==> r.nodes == d.nodes
  {
    match c
    case AddedNode(n) =>
      Doc(Filter(d.nodes, (m: NodeRec) => m.id != n.id), d.edges, if d.start == Some(n.id) then None else d.start)
    case AddedEdge(e) =>
      var k := FindFirst(d.edges, SameKey(e));
      d.(edges := if k == -1 then d.edges else RemoveAt(d.edges, k))
    case DeletedNode(n, removed) =>
      d.(nodes := SortBy(d.nodes + [n], IdOf), edges := d.edges + removed)
    case MovedNode(id, oldX, oldY, _, _) =>
      d.(nodes := Placed(d.nodes, id, oldX, oldY))
    case DeletedEdge(e) =>
      d.(edges := d.edges + [e])
  }

  /** The start node, when set, is a node. */
  ghost predicate StartIsNode(d: Doc) {
    d.start.Some? ==> d.start.value in IdSet(d.nodes)
  }

  /** Undoing `addNode` gives back the document it was applied to. */
  lemma UndoAddNode(d: Doc, x: int, y: int)
    requires StartIsNode(d)
    ensures var e := AddNode(d, x, y); Undo(e.doc, e.command) == d
  {
    var e := AddNode(d, x, y);
    var n := e.command.node;
    var p := (m: NodeRec) => m.id != n.id;
    FilterAppend(d.nodes, [n], p);
    FilterAll(d.nodes, p);
    assert Filter([n], p) == [];
    IdSetMembers(d.nodes);
  }

  /** Two lists sorted by id, the second strictly, that hold the same records are the same list. */
  lemma {:induction false} SortedUnique(r: seq<NodeRec>, s: seq<NodeRec>)
    requires SortedBy(r, IdOf) && Ascending(s) && multiset(r) == multiset(s)
    ensures r == s
    decreases |s|
  {
    if s != [] {
      assert |r| == |s| by { assert |multiset(r)| == |multiset(s)|; }
      assert r[0] in multiset(s) && s[0] in multiset(r);
      var i :| 0 <= i < |s| && s[i] == r[0];
      var j :| 0 <= j < |r| && r[j] == s[0];
      assert r[0].id <= s[0].id by { if j > 0 { assert IdOf(r[0]) <= IdOf(r[j]); } }
      assert s[i].id <= s[0].id;
      assert forall k :: 0 < k < |s| ==> s[0].id < s[k].id;
      assert i == 0;
      assert r[0] == s[0];
      MultisetTail(r);
      MultisetTail(s);
      SortedTail(r, IdOf);
      AscendingTail(s);
      SortedUnique(r[1..], s[1..]);
    }
  }

  lemma AscendingTail(s: seq<NodeRec>)
    requires Ascending(s) && s != []
    ensures Ascending(s[1..])
  {
    forall i, j | 0 <= i < j < |s| - 1 ensures s[1..][i].id < s[1..][j].id {
      assert s[1..][i] == s[i + 1] && s[1..][j] == s[j + 1];
    }
  }

  /**
   * Undoing the deletion of a node gives back the node list exactly (the
   * re-sort puts the node back in its place), the edges as a multiset, and not
   * the start node if the deletion cleared it.
   */
  lemma UndoDeleteNode(d: Doc, i: nat)
    requires i < |d.nodes| && Ascending(d.nodes)
    ensures var e := DeleteNode(d, i);
      var u := Undo(e.doc, e.command);
      u.nodes == d.nodes && multiset(u.edges) == multiset(d.edges) && u.start == e.doc.start
  {
    var e := DeleteNode(d, i);
    var u := Undo(e.doc, e.command);
    assert multiset(u.nodes) == multiset(d.nodes);
    SortedUnique(u.nodes, d.nodes);
  }

  /**
   * Undoing an appended edge gives back the multiset of edge triples; when no
   * earlier edge has its triple, the edge list itself.
   */
  lemma UndoAppendedEdge(d: Doc, added: EdgeRec)
    ensures var u := Undo(d.(edges := d.edges + [added]), AddedEdge(added));
      u.nodes == d.nodes && u.start == d.start && multiset(Keys(u.edges)) == multiset(Keys(d.edges))
      && ((forall f :: f in d.edges ==> Key(f) != Key(added)) ==> u.edges == d.edges)
  {
    var edges := d.edges + [added];
    UndoAddedEdgeKeys(d.(edges := edges), added);
    KeysAppend(d.edges, [added]);
    assert Keys([added]) == [Key(added)];
    if forall f :: f in d.edges ==> Key(f) != Key(added) {
      FirstAppended(d.edges, added);
      assert RemoveAt(edges, |d.edges|) == d.edges;
    }
  }

  /** An appended edge whose triple no earlier edge has is the first match of its triple. */
  lemma FirstAppended(edges: seq<EdgeRec>, added: EdgeRec)
    requires forall f :: f in edges ==> Key(f) != Key(added)
    ensures FindFirst(edges + [added], SameKey(added)) == |edges|
  {
    var s := edges + [added];
    assert SameKey(added)(s[|edges|]);
    forall j | 0 <= j < |edges| ensures !SameKey(added)(s[j]) {
      assert s[j] == edges[j] && edges[j] in edges;
    }
  }

  /**
   * Undoing an added edge gives back the nodes and the multiset of edge triples;
   * for an edge between two distinct nodes (never a duplicate) the edge list itself.
   */
  lemma UndoAddEdge(d: Doc, selected: seq<NodeId>, weight: Option<int>, directed: bool)
    requires SaveEdge(d, selected, weight, directed).Added?
    ensures var e := SaveEdge(d, selected, weight, directed).edit;
      var u := Undo(e.doc, e.command);
      u.nodes == d.nodes && u.start == d.start && multiset(Keys(u.edges)) == multiset(Keys(d.edges))
      && (selected[0] != selected[1] ==> u.edges == d.edges)
  {
    var e := SaveEdge(d, selected, weight, directed).edit;
    var added := e.command.edge;
    UndoAppendedEdge(d, added);
    if selected[0] != selected[1] {
      assert !Joined(d.edges, selected[0], selected[1], directed);
      forall f | f in d.edges ensures Key(f) != Key(added) {
        assert !Connects(Key(f), selected[0], selected[1], directed);
      }
    }
  }

  /** Undoing the deletion of an edge gives back the nodes and the edge multiset. */
  lemma UndoDeleteEdge(d: Doc, j: nat)
    requires j < |d.edges|
    ensures var e := DeleteEdge(d, j); var u := Undo(e.doc, e.command);
      u.nodes == d.nodes && u.start == d.start && multiset(u.edges) == multiset(d.edges)
  {
    var e := DeleteEdge(d, j);
    assert e.command.edge in multiset(d.edges);
  }

  /** Undoing a recorded move gives back the node list when the move started at the recorded position. */
  lemma UndoMove(nodes: seq<NodeRec>, k: nat, newX: int, newY: int)
    requires k < |nodes| && forall j :: 0 <= j < k ==> nodes[j].id != nodes[k].id
    ensures var n := nodes[k];
      Placed(Placed(nodes, n.id, newX, newY), n.id, n.x, n.y) == nodes
  {
    var n := nodes[k];
    var p := (m: NodeRec) => m.id == n.id;
    assert p(nodes[k]);
    assert FindFirst(nodes, p) == k;
    var moved := Placed(nodes, n.id, newX, newY);
    assert moved == nodes[k := n.(x := newX, y := newY)];
    assert p(moved[k]) && forall j :: 0 <= j < k ==> !p(moved[j]);
    assert FindFirst(moved, p) == k;
  }

  // ---------------------------------------------------------------- shapes

  /** A document seen as its node ids and the multiset of its edge triples. */
  datatype Shape = Shape(ids: set<NodeId>, keys: multiset<Edge>)

  ghost function ShapeOf(d: Doc): Shape { Shape(IdSet(d.nodes), multiset(Keys(d.edges))) }

  /** Every edge joins two nodes. */
  ghost predicate WellFormed(sh: Shape) {
    forall k :: k in sh.keys ==> k.from in sh.ids && k.to in sh.ids
  }

  /** What the editor keeps of a document: ascending ids, edges between nodes, a start that is a node. */
  ghost predicate Sound(d: Doc) {
    Ascending(d.nodes) && WellFormed(ShapeOf(d)) && StartIsNode(d)
  }

  /** What `undo` does to the shape of a document. */
  ghost function UndoShape(sh: Shape, c: Command): Shape {
    match c
    case AddedNode(n) => Shape(sh.ids - {n.id}, sh.keys)
    case AddedEdge(e) => Shape(sh.ids, sh.keys - multiset{Key(e)})
    case DeletedNode(n, removed) => Shape(sh.ids + {n.id}, sh.keys + multiset(Keys(removed)))
    case MovedNode(_, _, _, _, _) => sh
    case DeletedEdge(e) => Shape(sh.ids, sh.keys + multiset{Key(e)})
  }

  /**
   * The condition under which undoing `c` keeps a sound document sound: an
   * added node has no edges by then, a deleted node's id is free again and its
   * edges lead to nodes, a deleted edge joins nodes.
   */
  ghost predicate Undoable(sh: Shape, c: Command) {
    match c
    case AddedNode(n) => forall k :: k in sh.keys ==> k.from != n.id && k.to != n.id
    case DeletedNode(n, removed) =>
      n.id !in sh.ids && forall e :: e in removed ==> e.from in sh.ids + {n.id} && e.to in sh.ids + {n.id}
    case DeletedEdge(e) => e.from in sh.ids && e.to in sh.ids
    case _ => true
  }

  /** The stack can be undone to the bottom, each command meeting its condition at its turn. */
  ghost predicate Consistent(sh: Shape, stack: seq<Command>)
    decreases |stack|
  {
    stack == [] ||
    (Undoable(sh, stack[|stack| - 1]) && Consistent(UndoShape(sh, stack[|stack| - 1]), stack[..|stack| - 1]))
  }

  /** `e` is undone back to the shape of `d`, meeting its condition. */
  ghost predicate Invertible(d: Doc, e: Edit) {
    Undoable(ShapeOf(e.doc), e.command) && UndoShape(ShapeOf(e.doc), e.command) == ShapeOf(d)
  }

  /** Pushing an invertible edit's command keeps the stack consistent. */
  lemma ConsistentPush(d: Doc, e: Edit, stack: seq<Command>)
    requires Invertible(d, e) && Consistent(ShapeOf(d), stack)
    ensures Consistent(ShapeOf(e.doc), stack + [e.command])
  {
    assert (stack + [e.command])[..|stack|] == stack;
  }

  /** Popping a command of a consistent stack and undoing it leaves a consistent stack. */
  lemma ConsistentPop(d: Doc, stack: seq<Command>)
    requires stack != [] && Consistent(ShapeOf(d), stack)
    ensures Undoable(ShapeOf(d), stack[|stack| - 1])
    ensures Consistent(ShapeOf(Undo(d, stack[|stack| - 1])), stack[..|stack| - 1])
  {
    UndoShapeAgrees(d, stack[|stack| - 1]);
  }

  lemma KeysAppend(a: seq<EdgeRec>, b: seq<EdgeRec>)
    ensures multiset(Keys(a + b)) == multiset(Keys(a)) + multiset(Keys(b))
  {
    MapAppend(a, b, Key);
  }

  lemma IdsAppend(a: seq<NodeRec>, b: seq<NodeRec>)
    ensures IdSet(a + b) == IdSet(a) + IdSet(b)
  {
    MapAppend(a, b, IdOf);
  }

  /** The shape after `undo` is the shape `UndoShape` names. */
  lemma UndoShapeAgrees(d: Doc, c: Command)
    ensures ShapeOf(Undo(d, c)) == UndoShape(ShapeOf(d), c)
  {
    match c
    case AddedNode(n) => UndoAddedNodeIds(d, n);
    case AddedEdge(e) => UndoAddedEdgeKeys(d, e);
    case DeletedNode(n, removed) => UndoDeletedNodeShape(d, n, removed);
    case MovedNode(_, _, _, _, _) =>
    case DeletedEdge(e) =>
      KeysAppend(d.edges, [e]);
      assert Keys([e]) == [Key(e)];
  }

  lemma UndoAddedNodeIds(d: Doc, n: NodeRec)
    ensures IdSet(Undo(d, AddedNode(n)).nodes) == IdSet(d.nodes) - {n.id}
  {
    var u := Undo(d, AddedNode(n));
    IdSetMembers(d.nodes);
    IdSetMembers(u.nodes);
    forall v ensures v in IdSet(u.nodes) <==> v in IdSet(d.nodes) - {n.id} {
      if v in IdSet(d.nodes) - {n.id} {
        var i :| 0 <= i < |d.nodes| && d.nodes[i].id == v;
        assert d.nodes[i] in u.nodes;
      }
      if v in IdSet(u.nodes) {
        var i :| 0 <= i < |u.nodes| && u.nodes[i].id == v;
        assert u.nodes[i] in u.nodes;
      }
    }
  }

  lemma UndoAddedEdgeKeys(d: Doc, e: EdgeRec)
    ensures multiset(Keys(Undo(d, AddedEdge(e)).edges)) == multiset(Keys(d.edges)) - multiset{Key(e)}
  {
    var k := FindFirst(d.edges, SameKey(e));
    if k == -1 {
      assert Key(e) !in Keys(d.edges);
    } else {
      MapRemoveAt(d.edges, k, Key);
    }
  }

  lemma UndoDeletedNodeShape(d: Doc, n: NodeRec, removed: seq<EdgeRec>)
    ensures ShapeOf(Undo(d, DeletedNode(n, removed))) == Shape(IdSet(d.nodes) + {n.id}, multiset(Keys(d.edges)) + multiset(Keys(removed)))
  {
    var u := Undo(d, DeletedNode(n, removed));
    KeysAppend(d.edges, removed);
    IdsAppend(d.nodes, [n]);
    MapPermutation(u.nodes, d.nodes + [n], IdOf);
    forall v ensures v in Ids(u.nodes) <==> v in Ids(d.nodes + [n]) {
      assert v in Ids(u.nodes) <==> v in multiset(Ids(u.nodes));
      assert v in Ids(d.nodes + [n]) <==> v in multiset(Ids(d.nodes + [n]));
    }
    assert IdSet(u.nodes) == IdSet(d.nodes + [n]);
    assert IdSet([n]) == {n.id} by { assert Ids([n]) == [n.id]; }
  }

  /** Undoing a command that meets its condition keeps a sound document sound. */
  lemma UndoKeeps(d: Doc, c: Command)
    requires Sound(d) && Undoable(ShapeOf(d), c)
    ensures Sound(Undo(d, c))
  {
    UndoShapeAgrees(d, c);
    match c
    case AddedNode(n) => UndoAddedNodeKeeps(d, n);
    case AddedEdge(e) =>
      assert multiset(Keys(Undo(d, c).edges)) <= multiset(Keys(d.edges));
    case DeletedNode(n, removed) => UndoDeletedNodeKeeps(d, n, removed);
    case MovedNode(id, x, y, _, _) => SameIdsKeep(d, Undo(d, c));
    case DeletedEdge(e) =>
  }

  lemma UndoAddedNodeKeeps(d: Doc, n: NodeRec)
    requires Sound(d) && Undoable(ShapeOf(d), AddedNode(n))
    ensures Sound(Undo(d, AddedNode(n)))
  {
    FilterAscending(d.nodes, (m: NodeRec) => m.id != n.id);
    UndoAddedNodeIds(d, n);
  }

  lemma UndoDeletedNodeKeeps(d: Doc, n: NodeRec, removed: seq<EdgeRec>)
    requires Sound(d) && Undoable(ShapeOf(d), DeletedNode(n, removed))
    ensures Sound(Undo(d, DeletedNode(n, removed)))
  {
    var u := Undo(d, DeletedNode(n, removed));
    UndoDeletedNodeShape(d, n, removed);
    PermutedIdsDistinct(d.nodes, n, u.nodes);
    assert Ascending(u.nodes) by {
      forall i, j | 0 <= i < j < |u.nodes| ensures u.nodes[i].id < u.nodes[j].id {
        assert IdOf(u.nodes[i]) <= IdOf(u.nodes[j]);
      }
    }
    forall k | k in multiset(Keys(removed)) ensures k.from in IdSet(u.nodes) && k.to in IdSet(u.nodes) {
      var t :| 0 <= t < |Keys(removed)| && Keys(removed)[t] == k;
      assert removed[t] in removed;
    }
  }

  /** Documents with the same ids in the same order, the same triples and the same start are equally sound. */
  lemma SameIdsKeep(d: Doc, u: Doc)
    requires Ids(u.nodes) == Ids(d.nodes) && Keys(u.edges) == Keys(d.edges) && u.start == d.start
    ensures ShapeOf(u) == ShapeOf(d)
    ensures Sound(d) ==> Sound(u)
  {
    if Ascending(d.nodes) {
      forall i, j | 0 <= i < j < |u.nodes| ensures u.nodes[i].id < u.nodes[j].id {
        assert Ids(u.nodes)[i] == Ids(d.nodes)[i] && Ids(u.nodes)[j] == Ids(d.nodes)[j];
      }
    }
  }

  /** A permutation of a strictly ascending list plus a record with a fresh id has no id twice. */
  lemma PermutedIdsDistinct(s: seq<NodeRec>, n: NodeRec, t: seq<NodeRec>)
    requires Ascending(s) && n.id !in IdSet(s) && multiset(t) == multiset(s + [n])
    ensures forall i, j :: 0 <= i < j < |t| ==> t[i].id != t[j].id
  {
    IdSetMembers(s);
    var a := s + [n];
    forall i, j | 0 <= i < j < |t| ensures t[i].id != t[j].id {
      assert t[i] in multiset(a) && t[j] in multiset(a);
      var p :| 0 <= p < |a| && a[p] == t[i];
      var q :| 0 <= q < |a| && a[q] == t[j];
      if p == q {
        // the same record twice in `t`, but once in `a`
        TwiceCount(t, i, j);
        CountOnce(s, n, p);
        assert false;
      } else if p < |s| && q < |s| {
        if p < q { assert a[p].id < a[q].id; } else { assert a[q].id < a[p].id; }
      } else if p < |s| {
        assert a[p] == s[p];
      } else {
        assert a[q] == s[q];
      }
    }
  }

  /** A record at two places of a list occurs at least twice in its multiset. */
  lemma TwiceCount<T>(t: seq<T>, i: nat, j: nat)
    requires i < j < |t| && t[i] == t[j]
    ensures multiset(t)[t[i]] >= 2
  {
    assert t == t[..i] + [t[i]] + t[i + 1..j] + [t[j]] + t[j + 1..];
  }

  /** In a strictly ascending list extended by a record with a fresh id, every record occurs once. */
  lemma CountOnce(s: seq<NodeRec>, n: NodeRec, p: nat)
    requires Ascending(s) && n.id !in IdSet(s) && p < |s| + 1
    ensures multiset(s + [n])[(s + [n])[p]] == 1
  {
    IdSetMembers(s);
    var a := s + [n];
    var x := a[p];
    assert a == a[..p] + [x] + a[p + 1..];
    assert x !in a[..p] by {
      forall r | 0 <= r < p ensures a[..p][r] != x {
        assert a[r] == s[r];
        if p < |s| { assert s[r].id < s[p].id; }
      }
    }
    assert x !in a[p + 1..] by {
      forall r | p + 1 <= r < |a| ensures a[r] != x {
        if r < |s| { assert s[p].id < s[r].id; }
      }
    }
  }

  /** Filtering keeps ids ascending. */
  lemma {:induction false} FilterAscending(s: seq<NodeRec>, p: NodeRec -> bool)
    requires Ascending(s)
    ensures Ascending(Filter(s, p))
  {
    if s != [] {
      FilterAscending(s[1..], p);
      var rest := Filter(s[1..], p);
      forall j | 0 <= j < |rest| ensures s[0].id < rest[j].id {
        assert rest[j] in s[1..];
        var t :| 0 <= t < |s[1..]| && s[1..][t] == rest[j];
        assert s[t + 1] == rest[j];
      }
    }
  }
  // ---------------------------------------------------------------- edits keep the editor sound

  /** `addNode` keeps a sound document sound and is undone back to its shape. */
  lemma AddNodeKeeps(d: Doc, x: int, y: int)
    requires Sound(d)
    ensures var e := AddNode(d, x, y); Sound(e.doc) && Invertible(d, e)
  {
    var e := AddNode(d, x, y);
    var n := e.command.node;
    IdsAppend(d.nodes, [n]);
    assert IdSet([n]) == {n.id} by { assert Ids([n]) == [n.id]; }
    IdSetMembers(d.nodes);
    assert n.id !in IdSet(d.nodes);
    assert (IdSet(d.nodes) + {n.id}) - {n.id} == IdSet(d.nodes);
  }

  lemma IdSetRemoveAt(nodes: seq<NodeRec>, k: nat)
    requires Ascending(nodes) && k < |nodes|
    ensures IdSet(RemoveAt(nodes, k)) == IdSet(nodes) - {nodes[k].id}
    ensures Ascending(RemoveAt(nodes, k))
  {
    AscendingRemoveAt(nodes, k);
    IdSetRemoved(nodes, k);
  }

  lemma AscendingRemoveAt(nodes: seq<NodeRec>, k: nat)
    requires Ascending(nodes) && k < |nodes|
    ensures Ascending(RemoveAt(nodes, k))
  {
    var r := RemoveAt(nodes, k);
    forall i, j | 0 <= i < j < |r| ensures r[i].id < r[j].id {
      var i', j' := if i < k then i else i + 1, if j < k then j else j + 1;
      assert r[i] == nodes[i'] && r[j] == nodes[j'];
    }
  }

  lemma IdSetRemoved(nodes: seq<NodeRec>, k: nat)
    requires Ascending(nodes) && k < |nodes|
    ensures IdSet(RemoveAt(nodes, k)) == IdSet(nodes) - {nodes[k].id}
  {
    var r := RemoveAt(nodes, k);
    IdSetMembers(nodes);
    IdSetMembers(r);
    forall v | v in IdSet(r) ensures v in IdSet(nodes) && v != nodes[k].id {
      var i :| 0 <= i < |r| && r[i].id == v;
      var j := if i < k then i else i + 1;
      assert r[i] == nodes[j] && j != k;
    }
    forall v | v in IdSet(nodes) && v != nodes[k].id ensures v in IdSet(r) {
      var i :| 0 <= i < |nodes| && nodes[i].id == v;
      var j := if i < k then i else i - 1;
      assert r[j] == nodes[i];
    }
  }

  /** Deleting a node keeps a sound document sound and is undone back to its shape. */
  lemma DeleteNodeKeeps(d: Doc, i: nat)
    requires Sound(d) && i < |d.nodes|
    ensures var e := DeleteNode(d, i); Sound(e.doc) && Invertible(d, e)
  {
    var e := DeleteNode(d, i);
    var x := d.nodes[i].id;
    var p := (n: NodeRec) => n.id == x;
    assert p(d.nodes[i]);
    var k := FindFirst(d.nodes, p);
    IdSetRemoveAt(d.nodes, k);
    assert IdSet(e.doc.nodes) + {x} == IdSet(d.nodes) by { IdSetMembers(d.nodes); }
    SplitKeys(d.edges, e.doc.edges, e.command.removedEdges);
    CutEdgesKeep(d, e.doc, x);
    RemovedEdgesReturn(d, e.command.removedEdges, IdSet(e.doc.nodes), x);
  }

  lemma SplitKeys(edges: seq<EdgeRec>, kept: seq<EdgeRec>, removed: seq<EdgeRec>)
    requires multiset(kept) + multiset(removed) == multiset(edges)
    ensures multiset(Keys(kept)) + multiset(Keys(removed)) == multiset(Keys(edges))
  {
    MapPermutation(kept + removed, edges, Key);
    KeysAppend(kept, removed);
  }

  /** The edges left by a deletion avoid the deleted id, so they still join nodes. */
  lemma CutEdgesKeep(d: Doc, u: Doc, x: NodeId)
    requires Sound(d) && Ascending(u.nodes) && IdSet(u.nodes) == IdSet(d.nodes) - {x}
    requires forall f :: f in u.edges <==> f in d.edges && !Touches(f, x)
    requires u.start == if d.start == Some(x) then None else d.start
    ensures Sound(u)
  {
    forall key | key in multiset(Keys(u.edges)) ensures key.from in IdSet(u.nodes) && key.to in IdSet(u.nodes) {
      var t :| 0 <= t < |Keys(u.edges)| && Keys(u.edges)[t] == key;
      assert u.edges[t] in d.edges;
      var s :| 0 <= s < |d.edges| && d.edges[s] == u.edges[t];
      assert Keys(d.edges)[s] == key == Key(u.edges[t]);
      assert key in ShapeOf(d).keys;
      assert key.from != x && key.to != x;
    }
    assert StartIsNode(u);
  }

  /** The edges a deletion removed lead to the remaining nodes or the deleted one. */
  lemma RemovedEdgesReturn(d: Doc, removed: seq<EdgeRec>, ids: set<NodeId>, x: NodeId)
    requires WellFormed(ShapeOf(d)) && ids + {x} == IdSet(d.nodes)
    requires forall f :: f in removed ==> f in d.edges
    ensures forall f :: f in removed ==> f.from in ids + {x} && f.to in ids + {x}
  {
    forall f | f in removed ensures f.from in ids + {x} && f.to in ids + {x} {
      var s :| 0 <= s < |d.edges| && d.edges[s] == f;
      assert Keys(d.edges)[s] == Key(f);
    }
  }

  /** Deleting an edge keeps a sound document sound and is undone back to its shape. */
  lemma DeleteEdgeKeeps(d: Doc, j: nat)
    requires Sound(d) && j < |d.edges|
    ensures var e := DeleteEdge(d, j); Sound(e.doc) && Invertible(d, e)
  {
    var e := DeleteEdge(d, j);
    assert SameKey(d.edges[j])(d.edges[j]);
    var k := FindFirst(d.edges, SameKey(d.edges[j]));
    assert e.doc.edges == RemoveAt(d.edges, k) && e.command.edge == d.edges[k];
    var key := Key(d.edges[k]);
    MapRemoveAt(d.edges, k, Key);
    assert Keys(d.edges)[k] == key;
    assert key in multiset(Keys(d.edges));
    EdgeRemovedKeeps(d, e.doc, key);
    var sh := ShapeOf(e.doc);
    assert Undoable(sh, DeletedEdge(d.edges[k]));
    assert UndoShape(sh, DeletedEdge(d.edges[k])) == Shape(sh.ids, sh.keys + multiset{key});
  }

  /** Losing one occurrence of a triple that is there keeps a document sound and is undone by adding it back. */
  lemma EdgeRemovedKeeps(d: Doc, u: Doc, key: Edge)
    requires Sound(d) && u.nodes == d.nodes && u.start == d.start
    requires key in multiset(Keys(d.edges)) && multiset(Keys(u.edges)) == multiset(Keys(d.edges)) - multiset{key}
    ensures Sound(u) && ShapeOf(u).keys + multiset{key} == ShapeOf(d).keys
    ensures key.from in IdSet(u.nodes) && key.to in IdSet(u.nodes)
  {
  }

  /** The corrected `saveEdgeWeight` keeps a sound document sound and is undone back to its shape. */
  lemma SaveEdgeKeeps(d: Doc, selected: seq<NodeId>, weight: Option<int>, directed: bool)
    requires Sound(d) && SaveEdge(d, selected, weight, directed).Added?
    ensures var e := SaveEdge(d, selected, weight, directed).edit; Sound(e.doc) && Invertible(d, e)
  {
    var e := SaveEdge(d, selected, weight, directed).edit;
    var added := e.command.edge;
    KeysAppend(d.edges, [added]);
    assert Keys([added]) == [Key(added)];
    assert added.from in Ids(d.nodes) && added.to in Ids(d.nodes);
    assert multiset(Keys(e.doc.edges)) - multiset{Key(added)} == multiset(Keys(d.edges));
  }

  /** Moving a node by id changes no shape, so keeps a sound document sound. */
  lemma PlacedKeeps(d: Doc, id: NodeId, x: int, y: int)
    requires Sound(d)
    ensures var u := d.(nodes := Placed(d.nodes, id, x, y)); Sound(u) && ShapeOf(u) == ShapeOf(d)
  {
    SameIdsKeep(d, d.(nodes := Placed(d.nodes, id, x, y)));
  }

  /**
   * As written, an edge may end at a node that is gone.  From one node, add
   * node 2, select it in edge mode, undo the addition (the selection survives),
   * select node 1 and save: the edge from 2 to 1 is added with no node 2.  The
   * next node added gets id 2 and inherits the edge.  The corrected check
   * refuses that edge.
   */
  lemma StaleSelectionEdge()
    ensures var d := Doc([NodeRec(1, 0, 0, false, false)], [], None);
      var e := AddNode(d, 50, 0);
      var r := SaveEdgeAsWritten(d, [e.command.node.id, 1], Some(1), false);
      Sound(d) && Undo(e.doc, e.command) == d && r.Added? && !WellFormed(ShapeOf(r.edit.doc))
      && NextId(r.edit.doc.nodes) == e.command.node.id
      && SaveEdge(d, [e.command.node.id, 1], Some(1), false) == MissingNode
  {
    var n1 := NodeRec(1, 0, 0, false, false);
    var d := Doc([n1], [], None);
    assert Ids([n1]) == [1];
    assert IdSet([n1]) == {1};
    assert NextId([n1]) == 2;
    UndoAddNode(d, 50, 0);
    var r := SaveEdgeAsWritten(d, [2, 1], Some(1), false);
    assert !Joined([], 2, 1, false);
    assert r.edit.doc.edges == [EdgeRec(2, 1, 1, false, false)];
    assert Keys(r.edit.doc.edges) == [Edge(2, 1, 1)];
    assert Edge(2, 1, 1) in multiset(Keys(r.edit.doc.edges));
  }
}
