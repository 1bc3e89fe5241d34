# Graph editor and algorithm visualiser — a Dafny model

The system is a single-page graph editor, written as one browser script, in three parts.

- **Editing.** Nodes are added and then dragged. Edges get a weight, connecting two selected nodes in edge mode. Nodes and edges are removed in delete mode. A start node is chosen, the graph is directed or not, and every edit is undone from a stack of commands.
- **The worker.** A run sends a copy of the graph to a background worker. There it runs one of breadth-first search, depth-first search, Dijkstra's algorithm (over a binary-heap priority queue) or Bellman-Ford. It returns a trace of steps and, for the shortest-path algorithms, the final distance and predecessor tables.
- **Playback.** The page plays the trace back: it animates step by step on timeouts, pauses, resumes, or steps manually. It then prints a summary, either the traversal order or each reached node's distance and reconstructed path.

The model follows the script's own structure.

| Module | What it models |
|---|---|
| `Graph` | The posted snapshot (ids, edge triples, direction flag). The neighbour rule the worker uses. Walks, reachability and walk weights, as reference definitions. |
| `Trace` | The step records and the worker's reply. The properly-nested check used for depth-first traces. |
| `PriorityQueues` | The worker's `PriorityQueue` class, a `class` over an `array` and its size. The heap operations are specified by functions on sequences. |
| `Bfs`, `Dfs`, `Dijkstra`, `BellmanFord` | The four algorithm branches of the worker, as methods with loops and invariants. |
| `Paths` | The predecessor walk-back that emits the shortest-path edges, shared by the last two algorithms. |
| `Engine` | The guards of `runAlgorithm` and the worker's dispatch. |
| `Components` | `findConnectedComponents`. |
| `Editor` | The edit commands and `undo`, as functions on a document value (`nodes`, `edges`, `startNodeId`). It also proves what undo restores, and that the undo stack stays undoable. |
| `Playback` | `applyVisualStep`, the replay that `stepThrough` performs, the summary of `displayAlgorithmCompletion`, and the animation's timeouts. |
| `App` | The page as a `class GraphEditor`. Its fields group the script's globals: `doc` (the graph), `undoStack`, `tools` (the modes, the edge selection, the drag), `play` (the algorithm, steps, position, pause/completed flags, timeout, final tables, last summary) and `marks` (the highlight sets). Each handler is a method. `Valid()` is kept by every handler, and it holds when the document is sound and the undo stack can be undone to the bottom. |

Inputs the page reads from the browser are parameters of the methods:

- the canvas size;
- the mouse position;
- which node or edge is under the mouse;
- the parsed text of a modal field.

The worker is run synchronously. Its reply is delivered by `Deliver`, which is the `onmessage` handler.

Where the code and the system's design description differ, the model follows the code:

- The description promises that undoing any single edit gives back the start node too. Undoing a node deletion does not: if the deletion cleared the start node, the start stays cleared (`Editor.UndoDeleteNode` states exactly this).
- The description speaks of a single reply message. After a Bellman-Ford run the worker posts twice: its own reply (with the error payload when a cycle was found), then the common final message without one.
- The description promises that BFS and DFS visit each reachable node exactly once. The code does not keep that promise. BFS builds a node's neighbour list with one entry per incident edge (script_with_comments.js:1136-1145), so a node joined by parallel edges is enqueued, and later visited, more than once. DFS takes the neighbour list once, on entry (1163-1174), and recurses into every entry without asking `visited` again, so a node reached meanwhile through an earlier sibling is entered a second time. `Bfs.Bfs` and `Dfs.Dfs` state what does hold: the visited ids are exactly the reachable nodes.

There are two exceptions, both listed under "## Findings". In each, the handlers use the corrected behaviour, and a separate member models the code as written:

- Saving an edge checks that both selected ids are still nodes. This is `Editor.SaveEdge`; the code as written is `Editor.SaveEdgeAsWritten`, and `Editor.StaleSelectionEdge` shows what it lets through.
- Stopping the animation clears the pending timeout as well as dropping its handle. This is `Playback.Stopped`; the code as written is `Playback.StoppedAsWritten`, and `Playback.TwoChains` shows the second timeout chain it leaves pending.

The "## Left out" lines of `App.GraphEditor.SaveEdgeWeight`, `SelectAlgorithm`, `Reset` and `Run` say which of these each handler uses.

## Model

| member | source | states |
|---|---|---|
| Graph.FindEdge | GRAPH_EDITOR_PROJECT_FILES/Code/script_with_comments.js:1146-1147 | The edge found is in the list and joins the two nodes; none is found exactly when no edge joins them. |
| Graph.Candidates | GRAPH_EDITOR_PROJECT_FILES/Code/script_with_comments.js:1136-1138 | A candidate neighbour is exactly an incident edge followed to its other end. |
| Graph.UnvisitedNeighboursMembers | GRAPH_EDITOR_PROJECT_FILES/Code/script_with_comments.js:1136-1141 | The BFS/DFS neighbour list is sorted ascending and holds exactly the unvisited neighbours that are existing nodes. |
| Graph.NeighbourRecordsMembers | GRAPH_EDITOR_PROJECT_FILES/Code/script_with_comments.js:1204-1213 | A record in Dijkstra's neighbour list is exactly an incident edge with its other end, that end being an existing node. |
| Trace.TraverseStep | GRAPH_EDITOR_PROJECT_FILES/Code/script_with_comments.js:1146-1149 | At most one edge step is recorded, for an existing edge joining the two nodes. |
| Trace.TraverseStepFound | GRAPH_EDITOR_PROJECT_FILES/Code/script_with_comments.js:1146-1149 | For a true neighbour the edge is always found, so exactly one step is recorded. |
| Trace.InitTables | GRAPH_EDITOR_PROJECT_FILES/Code/script_with_comments.js:1186-1191 | Every node is at distance Infinity with no predecessor, and the tables have exactly the nodes as keys. |
| Trace.NestDepth | GRAPH_EDITOR_PROJECT_FILES/Code/script_with_comments.js:1157-1178 | In a properly nested trace the open visits never repeat an id, so at most as many are open as there are nodes (the recursion depth). |
| PriorityQueues.PriorityQueue.constructor | GRAPH_EDITOR_PROJECT_FILES/Code/script_with_comments.js:1064-1066 | A new queue is a valid heap with no entries. |
| PriorityQueues.PriorityQueue.IsEmpty | GRAPH_EDITOR_PROJECT_FILES/Code/script_with_comments.js:1121-1123 | True exactly when the queue holds no entries. |
| PriorityQueues.PriorityQueue.Enqueue | GRAPH_EDITOR_PROJECT_FILES/Code/script_with_comments.js:1067-1070 | Keeps the heap valid; the entries become the sift-up of the old entries plus the new one. |
| PriorityQueues.PriorityQueue.BubbleUp | GRAPH_EDITOR_PROJECT_FILES/Code/script_with_comments.js:1071-1081 | The in-place loop computes the sift-up of the last entry. |
| PriorityQueues.PriorityQueue.Dequeue | GRAPH_EDITOR_PROJECT_FILES/Code/script_with_comments.js:1082-1091 | An empty queue gives `null` and stays empty; otherwise it gives the root's element and the entries become the pop of the old ones, still a heap. |
| PriorityQueues.PriorityQueue.SinkDown | GRAPH_EDITOR_PROJECT_FILES/Code/script_with_comments.js:1092-1120 | The in-place loop computes the sift-down of the root. |
| PriorityQueues.PushHeap | GRAPH_EDITOR_PROJECT_FILES/Code/script_with_comments.js:1067-1081 | Pushing onto a heap gives a heap with one more entry and exactly the old entries plus the new one. |
| PriorityQueues.PopHeap | GRAPH_EDITOR_PROJECT_FILES/Code/script_with_comments.js:1082-1120 | Popping a heap gives a heap with one entry fewer and exactly the old entries without the root. |
| PriorityQueues.ChooseMinimal | GRAPH_EDITOR_PROJECT_FILES/Code/script_with_comments.js:1096-1115 | The child sink-down swaps with has a smaller priority than its parent and is the smaller of the two children; when none is chosen, the parent is no larger than both children. |
| PriorityQueues.HeapRootMinimal | GRAPH_EDITOR_PROJECT_FILES/Code/script_with_comments.js:1082-1091 | The root of a heap has the least priority, so `dequeue` returns a minimum. |
| PriorityQueues.PopMembers | GRAPH_EDITOR_PROJECT_FILES/Code/script_with_comments.js:1082-1091 | After a pop every entry but the root remains, nothing new appears, and the root was no larger than any entry. |
| Bfs.Bfs | GRAPH_EDITOR_PROJECT_FILES/Code/script_with_comments.js:1126-1152 | The trace starts with the start node and its visit and ends with `complete`. In between there are only visits and existing edges. Every edge leaves the node visited last before it and leads to a visited node. The visited ids are exactly the nodes reachable from the start. |
| Bfs.RoundMarks | GRAPH_EDITOR_PROJECT_FILES/Code/script_with_comments.js:1132-1150 | One round of the queue loop keeps every marked node reachable and every neighbour of a processed node marked. |
| Dfs.Dfs | GRAPH_EDITOR_PROJECT_FILES/Code/script_with_comments.js:1153-1181 | The trace starts with the start node and its visit, ends with its backtrack and `complete`, and is properly nested. Every edge leaves the innermost open visit and is followed at once by the visit of its other end. The visited ids are exactly the nodes reachable from the start. |
| Dfs.DfsRecursive | GRAPH_EDITOR_PROJECT_FILES/Code/script_with_comments.js:1157-1178 | One call opens with the node's visit, closes with its backtrack, and is properly nested over the open calls. Each edge in it leaves the innermost open visit and leads straight into the visit of its other end. It marks exactly the nodes it visits, and leaves every neighbour of those nodes marked. |
| Dijkstra.Dijkstra | GRAPH_EDITOR_PROJECT_FILES/Code/script_with_comments.js:1182-1246 | Under non-negative weights a distance is finite exactly for the reachable nodes, and it is then the weight of a lightest walk. Every predecessor link is an edge along which the distances agree. The trace is the explored part, then the shortest-path edges, then `complete`. No node is visited twice, and the visits are exactly the reachable nodes. |
| Dijkstra.Explore | GRAPH_EDITOR_PROJECT_FILES/Code/script_with_comments.js:1193-1226 | The main loop over the priority queue gives correct distances and links, visiting each reachable node exactly once. |
| Dijkstra.RelaxAll | GRAPH_EDITOR_PROJECT_FILES/Code/script_with_comments.js:1215-1225 | Relaxing all of a node's records keeps the main loop's invariant. |
| Dijkstra.RelaxOne | GRAPH_EDITOR_PROJECT_FILES/Code/script_with_comments.js:1216-1224 | An improvement lowers the distance, sets the predecessor, queues the neighbour at the new distance and records the edge; otherwise nothing changes. |
| Dijkstra.TrailWeight | GRAPH_EDITOR_PROJECT_FILES/Code/script_with_comments.js:1228-1241 | A walk back along predecessor links is a walk of the graph whose weight is at least the difference of its end distances. |
| BellmanFord.BellmanFord | GRAPH_EDITOR_PROJECT_FILES/Code/script_with_comments.js:1247-1353 | Every finite distance is achieved by a walk. The trace is the start node, the passes, the negative-cycle reports, the shortest-path edges of the reachable nodes, and `complete` only without reports. The reported edges are exactly the improvable edges from reachable nodes. There are none exactly when every distance is correct, and also exactly when no negative cycle is reachable from the start; each report names a node whose distance is wrong. |
| BellmanFord.Iterate | GRAPH_EDITOR_PROJECT_FILES/Code/script_with_comments.js:1259-1286 | The passes keep the relaxation state, are numbered 1 to k with at most \|nodes\|-1 of them, and stop early only on a pass that changed nothing. After k passes every walk of at most k edges from the start ends at a finite distance no more than its weight. |
| BellmanFord.Round | GRAPH_EDITOR_PROJECT_FILES/Code/script_with_comments.js:1259-1285 | One turn of the outer loop records the iteration and a pass, and lets every walk of one more edge count. |
| BellmanFord.Pass | GRAPH_EDITOR_PROJECT_FILES/Code/script_with_comments.js:1260-1285 | A pass records only relaxations; it reports a change exactly when it recorded one, and an unchanged pass leaves a fixed point. No distance rises, and every edge leaves its far end no more than the near end's distance at the start of the pass plus the weight. |
| BellmanFord.RelaxEdge | GRAPH_EDITOR_PROJECT_FILES/Code/script_with_comments.js:1261-1284 | Both relaxations of one edge (the reverse one only when undirected) keep the state, lower no distance and settle the edge's far ends; nothing changes exactly when neither improved. |
| BellmanFord.WithinPass | GRAPH_EDITOR_PROJECT_FILES/Code/script_with_comments.js:1259-1286 | A pass that settles every edge extends from walks of k edges to walks of k+1 edges the bound of distance by weight. |
| BellmanFord.ShortWalk | GRAPH_EDITOR_PROJECT_FILES/Code/script_with_comments.js:1259-1286 | With no reachable negative cycle, the distance after \|nodes\|-1 passes is at most the weight of every walk from the start, however long. |
| BellmanFord.Converges | GRAPH_EDITOR_PROJECT_FILES/Code/script_with_comments.js:1259-1286 | With no reachable negative cycle, \|nodes\|-1 passes leave every distance correct. |
| BellmanFord.Settled | GRAPH_EDITOR_PROJECT_FILES/Code/script_with_comments.js:1259-1286 | After the passes, whether they stopped early or ran \|nodes\|-1 times, every distance is correct exactly when no negative cycle is reachable. |
| BellmanFord.CorrectNoCycle | GRAPH_EDITOR_PROJECT_FILES/Code/script_with_comments.js:1288-1308 | Where every distance is correct, no reachable cycle has negative weight. |
| BellmanFord.MatchesDijkstra | GRAPH_EDITOR_PROJECT_FILES/Code/script_with_comments.js:1182-1353 | On a graph without negative weights, Dijkstra's distances and Bellman-Ford's distances are the same table. |
| BellmanFord.Relax | GRAPH_EDITOR_PROJECT_FILES/Code/script_with_comments.js:1262-1284 | An edge is relaxed exactly when it improves the distance, which then drops to the new value with the predecessor set and the edge recorded; otherwise nothing changes. |
| BellmanFord.Scan | GRAPH_EDITOR_PROJECT_FILES/Code/script_with_comments.js:1288-1308 | The scan collects the flagged edges in edge order, each direction of an undirected edge on its own, and records one report per edge. |
| BellmanFord.ScanMembers | GRAPH_EDITOR_PROJECT_FILES/Code/script_with_comments.js:1290-1307 | Every reported triple comes from an edge of the graph and is improvable from a reachable node. |
| BellmanFord.Verdict | GRAPH_EDITOR_PROJECT_FILES/Code/script_with_comments.js:1288-1344 | Nothing is reported exactly when every distance is the weight of a lightest walk (Infinity exactly for unreachable nodes), and each report names a node whose distance is wrong. |
| BellmanFord.FixedCorrect | GRAPH_EDITOR_PROJECT_FILES/Code/script_with_comments.js:1259-1286 | Once no edge improves any distance, every distance is correct. |
| Paths.PathTo | GRAPH_EDITOR_PROJECT_FILES/Code/script_with_comments.js:1230-1241 | The reconstruction loop computes the path function for one target. |
| Paths.PathTrail | GRAPH_EDITOR_PROJECT_FILES/Code/script_with_comments.js:1312-1331 | The path is a trail of first-found edges walking back from the target along the predecessors. Every node left behind passed the loop test, and the walk stopped for one of the loop's reasons unless the length cap cut it short. |
| Paths.GuardedBound | GRAPH_EDITOR_PROJECT_FILES/Code/script_with_comments.js:1314-1329 | With the visited guard of the Bellman-Ford loop the path never exceeds the number of nodes, so the length cap never fires. |
| Paths.EmitPaths | GRAPH_EDITOR_PROJECT_FILES/Code/script_with_comments.js:1310-1335 | The emission loop records the marks of every node's path in node order. |
| Paths.MarksFacts | GRAPH_EDITOR_PROJECT_FILES/Code/script_with_comments.js:1242-1244 | The emitted steps are shortest-path steps over existing edges, at most \|nodes\|+1 for each target. |
| Engine.Guard | GRAPH_EDITOR_PROJECT_FILES/Code/script_with_comments.js:995-1023 | The run may start exactly when an algorithm is chosen, the graph is non-empty, the start is a non-zero existing node, and Dijkstra sees no negative weight; each refusal comes with the failed guard, in the code's order. |
| Engine.Run | GRAPH_EDITOR_PROJECT_FILES/Code/script_with_comments.js:1050-1360 | Refused exactly when a guard fails. Otherwise the trace starts at the start node and only the shortest-path algorithms return tables. The traversals visit exactly the reachable nodes. Only Bellman-Ford reports an error, and a run without one ends with `complete`. Returned tables are all correct exactly when there is no error. |
| Components.BuildAdjacency | GRAPH_EDITOR_PROJECT_FILES/Code/script_with_comments.js:789-797 | Each node's list holds exactly the other ends of its non-loop edges, in both directions when undirected. |
| Components.Explore | GRAPH_EDITOR_PROJECT_FILES/Code/script_with_comments.js:799-807 | The recursive search appends the node and then exactly the newly visited nodes, each connected to it, with their neighbours covered. |
| Components.FindComponents | GRAPH_EDITOR_PROJECT_FILES/Code/script_with_comments.js:785-817 | An empty graph gives no components. Each component starts at a node and holds only nodes connected to it. The components are disjoint, cover every node, and each is closed under adjacency given the earlier ones. |
| Components.UndirectedComponents | GRAPH_EDITOR_PROJECT_FILES/Code/script_with_comments.js:785-817 | For an undirected graph whose edges join nodes, the components are exactly the connected classes: each holds just the nodes connected to its first node, and together they are the node set. |
| Editor.NextId | GRAPH_EDITOR_PROJECT_FILES/Code/script_with_comments.js:180 | The new id is above every id, one more than the largest, and 1 for an empty graph. |
| Editor.AddNode | GRAPH_EDITOR_PROJECT_FILES/Code/script_with_comments.js:177-200 | A plain node with the next id is appended and recorded; nothing else changes. |
| Editor.DeleteNode | GRAPH_EDITOR_PROJECT_FILES/Code/script_with_comments.js:359-370 | One node with the clicked id leaves the list. Exactly the edges touching it leave with it, and they are recorded with the command. The start is cleared if it was that node. |
| Editor.DeleteEdge | GRAPH_EDITOR_PROJECT_FILES/Code/script_with_comments.js:398-407 | One occurrence of the clicked edge's triple leaves the list and is recorded; nodes and start stay. |
| Editor.SaveEdge | GRAPH_EDITOR_PROJECT_FILES/Code/script_with_comments.js:477-531 | With the corrected check, a selected id that is not a node refuses the edge; otherwise the outcome is that of the code as written. |
| Editor.SaveEdgeAsWritten | GRAPH_EDITOR_PROJECT_FILES/Code/script_with_comments.js:477-531 | A bad weight is refused first, then a selection of fewer than two, then a duplicate between distinct nodes; otherwise the edge is appended and recorded. |
| Editor.Placed | GRAPH_EDITOR_PROJECT_FILES/Code/script_with_comments.js:302-304 | Moving a node by id keeps the ids in order and every other node unchanged. |
| Editor.Undo | GRAPH_EDITOR_PROJECT_FILES/Code/script_with_comments.js:569-600 | An added node is filtered out by id, with the start cleared if it was that node. An edge command leaves the nodes alone. A deleted node comes back within a list sorted by id, and only undoing an added node touches the start. |
| Editor.UndoAddNode | GRAPH_EDITOR_PROJECT_FILES/Code/script_with_comments.js:578-580 | Undoing `addNode` gives back exactly the document it was applied to. |
| Editor.UndoDeleteNode | GRAPH_EDITOR_PROJECT_FILES/Code/script_with_comments.js:584-587 | Undoing a node deletion gives back the node list exactly and the edges as a multiset, but not a start the deletion cleared. |
| Editor.UndoAddEdge | GRAPH_EDITOR_PROJECT_FILES/Code/script_with_comments.js:581-583 | Undoing an added edge gives back the nodes, the start and the multiset of edge triples, and exactly the edge list when the edge joins two distinct nodes. |
| Editor.UndoDeleteEdge | GRAPH_EDITOR_PROJECT_FILES/Code/script_with_comments.js:594-595 | Undoing an edge deletion gives back the nodes, the start and the edge multiset. |
| Editor.UndoMove | GRAPH_EDITOR_PROJECT_FILES/Code/script_with_comments.js:588-593 | Undoing a recorded move gives back the node list. |
| Editor.UndoKeeps | GRAPH_EDITOR_PROJECT_FILES/Code/script_with_comments.js:569-600 | Undoing a command that meets its condition keeps the document sound: ascending unique ids, edges between nodes, and a start that is a node. |
| Editor.ConsistentPop | GRAPH_EDITOR_PROJECT_FILES/Code/script_with_comments.js:569-600 | Popping and undoing the top command of an undoable stack leaves an undoable stack. |
| Editor.AddNodeKeeps | GRAPH_EDITOR_PROJECT_FILES/Code/script_with_comments.js:177-200 | `addNode` keeps a sound document sound, and its command is undone back to the old shape. |
| Editor.DeleteNodeKeeps | GRAPH_EDITOR_PROJECT_FILES/Code/script_with_comments.js:359-370 | Deleting a node keeps a sound document sound, and its command is undone back to the old shape. |
| Editor.DeleteEdgeKeeps | GRAPH_EDITOR_PROJECT_FILES/Code/script_with_comments.js:398-407 | Deleting an edge keeps a sound document sound, and its command is undone back to the old shape. |
| Editor.SaveEdgeKeeps | GRAPH_EDITOR_PROJECT_FILES/Code/script_with_comments.js:477-531 | The corrected `saveEdgeWeight` keeps a sound document sound, and its command is undone back to the old shape. |
| Editor.PlacedKeeps | GRAPH_EDITOR_PROJECT_FILES/Code/script_with_comments.js:297-313 | A drag changes no shape, so it keeps a sound document sound. |
| Editor.StaleSelectionEdge | GRAPH_EDITOR_PROJECT_FILES/Code/script_with_comments.js:503-521 | As written, a selection that survives an undo adds an edge to a removed node; the next node added inherits it, and the corrected check refuses it. |
| Playback.ApplyStep | GRAPH_EDITOR_PROJECT_FILES/Code/script_with_comments.js:1623-1659 | A step only raises display flags and adds to the highlight sets; the sets change only when stepping. |
| Playback.ApplyTwice | GRAPH_EDITOR_PROJECT_FILES/Code/script_with_comments.js:1623-1659 | Applying a step again during animation changes nothing more, so a repeated reply replays harmlessly. |
| Playback.ClearedIgnoresFlags | GRAPH_EDITOR_PROJECT_FILES/Code/script_with_comments.js:1600-1605 | The cleared canvas stepping starts from does not depend on the flags shown before. |
| Playback.ReplayQuietly | GRAPH_EDITOR_PROJECT_FILES/Code/script_with_comments.js:1623-1659 | Animating raises the same flags as stepping and leaves the highlight sets alone. |
| Playback.ReplayBare | GRAPH_EDITOR_PROJECT_FILES/Code/script_with_comments.js:1623-1659 | A replay keeps everything but the display flags, which only rise. |
| Playback.ReplayShows | GRAPH_EDITOR_PROJECT_FILES/Code/script_with_comments.js:1560-1620 | Stepping to a prefix from a cleared canvas shows exactly what that prefix names: the named nodes, the start flag on the start only, and the first edge matched by each edge step, with their keys in the sets. |
| Playback.FirstAt | GRAPH_EDITOR_PROJECT_FILES/Code/script_with_comments.js:1495 | `indexOf` gives the first position of an id or -1 exactly when it is absent. |
| Playback.Dedup | GRAPH_EDITOR_PROJECT_FILES/Code/script_with_comments.js:1495 | The reference de-duplication has no repeats and the same members. |
| Playback.FirstKeptDedup | GRAPH_EDITOR_PROJECT_FILES/Code/script_with_comments.js:1495 | The `indexOf` filter is the reference de-duplication. |
| Playback.DedupOrder | GRAPH_EDITOR_PROJECT_FILES/Code/script_with_comments.js:1495 | The de-duplication lists ids in the order of their first occurrences. |
| Playback.TraversalOrderMembers | GRAPH_EDITOR_PROJECT_FILES/Code/script_with_comments.js:1491-1497 | The traversal order lists each visited id, and the start when a node step names it. Each appears once, in order of first appearance. |
| Playback.TraversalOrderReachable | GRAPH_EDITOR_PROJECT_FILES/Code/script_with_comments.js:1491-1497 | After a BFS or DFS run the traversal order starts at the start and names every reachable node exactly once. |
| Playback.WalkSound | GRAPH_EDITOR_PROJECT_FILES/Code/script_with_comments.js:1513-1532 | From any state of the reconstruction loop each outcome means what it says: a route is a repetition-free chain of links from the start, a cycle label comes with a chain returning to one of its ids, an unreconstructed label with a chain that stops short of the start. |
| Playback.Explained | GRAPH_EDITOR_PROJECT_FILES/Code/script_with_comments.js:1505-1533 | The same for a target's whole reconstruction, and "too long" never happens when fewer nodes have predecessors than the limit. |
| Playback.Reconstruct | GRAPH_EDITOR_PROJECT_FILES/Code/script_with_comments.js:1505-1533 | The reconstruction loop computes the walk function, so its outcome means what `Explained` says. |
| Playback.Summarize | GRAPH_EDITOR_PROJECT_FILES/Code/script_with_comments.js:1489-1541 | The summary loop builds the summary function node by node. |
| Playback.Halted | GRAPH_EDITOR_PROJECT_FILES/Code/script_with_comments.js:1482-1484 | Clearing the pending timeout by its handle removes exactly that timer and keeps the handle; with one timer pending none remains. |
| Playback.Stopped | GRAPH_EDITOR_PROJECT_FILES/Code/script_with_comments.js:1453-1456 | Clearing the timeout and dropping the handle removes exactly that timer, and leaves none pending when there was one. |
| Playback.StoppedAsWritten | GRAPH_EDITOR_PROJECT_FILES/Code/script_with_comments.js:452-455 | `cancelAnimationFrame` on a timeout handle only forgets the handle; every timer stays pending. |
| Playback.Scheduled | GRAPH_EDITOR_PROJECT_FILES/Code/script_with_comments.js:1478-1480 | A new timeout is appended going on at the next step and its handle becomes the current one; with none pending before, exactly one is. |
| Playback.TwoChains | GRAPH_EDITOR_PROJECT_FILES/Code/script_with_comments.js:1024-1027 | As written, a stopped animation that is started again, with its second step scheduled as `Run` does, leaves two timeout chains pending, the old one going on at its old step; the corrected stop leaves one. |
| App.Clamp | GRAPH_EDITOR_PROJECT_FILES/Code/script_with_comments.js:303-304 | The clamped value lies between the bounds and equals the value when it already did. |
| App.Spot | GRAPH_EDITOR_PROJECT_FILES/Code/script_with_comments.js:178-184 | A new node is placed at least a radius inside the canvas. |
| App.Unlit | GRAPH_EDITOR_PROJECT_FILES/Code/script_with_comments.js:524 | Exactly the selected nodes lose their highlight; nothing else changes. |
| App.Starred | GRAPH_EDITOR_PROJECT_FILES/Code/script_with_comments.js:553 | The start flag is on exactly the start node; nothing else changes. |
| App.AddNodeStep | GRAPH_EDITOR_PROJECT_FILES/Code/script_with_comments.js:177-200 | `addNode` keeps the document sound and the stack undoable, and undoing it gives back the document. |
| App.DeleteNodeStep | GRAPH_EDITOR_PROJECT_FILES/Code/script_with_comments.js:359-370 | Deleting a node keeps the document sound and the stack undoable; undoing it gives back the nodes and the edge multiset. |
| App.DeleteEdgeStep | GRAPH_EDITOR_PROJECT_FILES/Code/script_with_comments.js:398-407 | Deleting an edge keeps the document sound and the stack undoable; undoing it gives back the document up to edge order. |
| App.SaveEdgeStep | GRAPH_EDITOR_PROJECT_FILES/Code/script_with_comments.js:503-531 | Adding an edge keeps the document sound and the stack undoable; undoing it gives back the multiset of edge triples. |
| App.PopStep | GRAPH_EDITOR_PROJECT_FILES/Code/script_with_comments.js:569-600 | Undoing and popping the top command keeps the document sound and the stack undoable. |
| App.StartStep | GRAPH_EDITOR_PROJECT_FILES/Code/script_with_comments.js:552-553 | Making an existing node the start keeps the document sound and the stack undoable. |
| App.RebuildStep | GRAPH_EDITOR_PROJECT_FILES/Code/script_with_comments.js:1600-1609 | Rebuilding the canvas by stepping keeps the document sound and shows exactly what the replayed steps name. |
| App.Received | GRAPH_EDITOR_PROJECT_FILES/Code/script_with_comments.js:1367-1415 | A reply's steps are taken, with both tables on an error and otherwise only the tables it carries; the position is before the first step, unpaused and not completed. |
| App.Rebuild | GRAPH_EDITOR_PROJECT_FILES/Code/script_with_comments.js:1607-1609 | The stepping loop replays the first n steps in order. |
| App.Ticked | GRAPH_EDITOR_PROJECT_FILES/Code/script_with_comments.js:1448-1481 | The timeout callback does nothing while paused. Past the last step it clears the timeout, completes and shows the summary. Otherwise it shows the step without touching the sets, makes it current and schedules the next. |
| App.TickedReplays | GRAPH_EDITOR_PROJECT_FILES/Code/script_with_comments.js:1445-1486 | The callback keeps the playback consistent; on a canvas replaying the first a steps quietly it gives the replay of the first a+1, so the animation shows the steps in order. |
| App.GraphEditor.constructor | GRAPH_EDITOR_PROJECT_FILES/Code/script_with_comments.js:11-47 | The page loads with an empty graph, nothing to undo, undirected, both modes off, no algorithm and no timer. |
| App.GraphEditor.AddNode | GRAPH_EDITOR_PROJECT_FILES/Code/script_with_comments.js:177-200 | A plain node with the next id is appended at the placement spot and recorded, and the drag starts on it; undoing the command gives back the document. |
| App.GraphEditor.PressNode | GRAPH_EDITOR_PROJECT_FILES/Code/script_with_comments.js:265-294 | In edge mode the node joins the selection, highlighted unless it is the first again; outside both modes a drag starts where the node is; delete mode changes nothing. |
| App.GraphEditor.MoveMouse | GRAPH_EDITOR_PROJECT_FILES/Code/script_with_comments.js:297-313 | While dragging, the node follows the mouse clamped a radius inside the canvas; otherwise nothing changes. |
| App.GraphEditor.Release | GRAPH_EDITOR_PROJECT_FILES/Code/script_with_comments.js:316-350 | A second, different node completes the edge selection and empty canvas cancels it. A drag ends and is recorded for undo only when the node moved. |
| App.GraphEditor.Complete | GRAPH_EDITOR_PROJECT_FILES/Code/script_with_comments.js:322-330 | A second, different node is added to a single selection and lit. Empty canvas clears the selection and unlights its node. Otherwise nothing changes; the undo stack and the drag are left alone. |
| App.GraphEditor.EndDrag | GRAPH_EDITOR_PROJECT_FILES/Code/script_with_comments.js:332-347 | The drag ends. A move command with both positions is pushed exactly when the node moved. The document is unchanged. |
| App.GraphEditor.Click | GRAPH_EDITOR_PROJECT_FILES/Code/script_with_comments.js:353-408 | In delete mode the clicked node goes with its edges, or else the clicked edge; the command is recorded, and undoing it gives back the nodes and the edge multiset. |
| App.GraphEditor.ToggleEdgeMode | GRAPH_EDITOR_PROJECT_FILES/Code/script_with_comments.js:203-231 | Edge mode flips, delete mode ends and the selection is dropped. |
| App.GraphEditor.ToggleDeleteMode | GRAPH_EDITOR_PROJECT_FILES/Code/script_with_comments.js:234-262 | Delete mode flips, edge mode ends and the selection is dropped. |
| App.GraphEditor.ToggleDirected | GRAPH_EDITOR_PROJECT_FILES/Code/script_with_comments.js:603-610 | The direction flag flips and nothing else changes. |
| App.GraphEditor.Escape | GRAPH_EDITOR_PROJECT_FILES/Code/script_with_comments.js:411-434 | Escape ends edge mode, unhighlighting the selection, or else ends delete mode. |
| App.GraphEditor.SaveEdgeWeight | GRAPH_EDITOR_PROJECT_FILES/Code/script_with_comments.js:477-531 | A bad weight changes nothing. Otherwise the selection is dropped and unhighlighted, and only an added edge is appended and recorded. |
| App.GraphEditor.SaveStartNode | GRAPH_EDITOR_PROJECT_FILES/Code/script_with_comments.js:534-566 | A blank entry, or one that is not a node's id, is refused and changes nothing; otherwise that node becomes the start and alone carries the start flag. |
| App.GraphEditor.Undo | GRAPH_EDITOR_PROJECT_FILES/Code/script_with_comments.js:569-600 | An empty stack changes nothing; otherwise the top command is popped and undone, keeping the document sound. |
| App.GraphEditor.ClearFlags | GRAPH_EDITOR_PROJECT_FILES/Code/script_with_comments.js:1034-1043 | Every display flag and highlight set is cleared, with the start flag on the start node. |
| App.GraphEditor.SelectAlgorithm | GRAPH_EDITOR_PROJECT_FILES/Code/script_with_comments.js:446-474 | The algorithm is chosen, steps and tables are dropped, and the canvas is cleared. The animation is stopped by the corrected stop, which leaves nothing pending. |
| App.GraphEditor.Reset | GRAPH_EDITOR_PROJECT_FILES/Code/script_with_comments.js:914-971 | An empty graph, no start, no algorithm, nothing to undo and both modes off; the direction flag stays. The animation is stopped by the corrected stop. |
| App.GraphEditor.Run | GRAPH_EDITOR_PROJECT_FILES/Code/script_with_comments.js:995-1050 | It is refused, changing nothing, exactly when a guard fails. Otherwise the reply's steps and tables are taken and correct as the worker proves. The canvas shows the first step on cleared flags. Because the earlier animation was stopped by the corrected stop, exactly one timeout waits, for the second step. |
| App.GraphEditor.Deliver | GRAPH_EDITOR_PROJECT_FILES/Code/script_with_comments.js:1367-1424 | A reply without an error and without steps changes only the steps. Otherwise the reply is received and the first callback runs. |
| App.GraphEditor.Animate | GRAPH_EDITOR_PROJECT_FILES/Code/script_with_comments.js:1445-1486 | The pending timeout is cleared and the callback runs at once on the step after the current one. |
| App.GraphEditor.Tick | GRAPH_EDITOR_PROJECT_FILES/Code/script_with_comments.js:1448-1481 | One run of the timeout callback, as `Ticked` states it. |
| App.GraphEditor.Fire | GRAPH_EDITOR_PROJECT_FILES/Code/script_with_comments.js:1479 | The browser runs the pending timeout, going on at the step after the current one. |
| App.GraphEditor.Pause | GRAPH_EDITOR_PROJECT_FILES/Code/script_with_comments.js:118-124 | Only the paused flag is set. |
| App.GraphEditor.Resume | GRAPH_EDITOR_PROJECT_FILES/Code/script_with_comments.js:125-134 | Unpaused; with a timeout handle the animation goes on at the next step, otherwise nothing else changes. |
| App.GraphEditor.StepThrough | GRAPH_EDITOR_PROJECT_FILES/Code/script_with_comments.js:1560-1620 | The animation is stopped with nothing pending, and an empty trace ends there. Stepping past the last step completes the run with its summary. Otherwise the next step becomes current (the first again after a completed run), and the canvas is the replay of every step up to it from cleared flags. |
| App.GraphEditor.Hold | GRAPH_EDITOR_PROJECT_FILES/Code/script_with_comments.js:1561-1568 | A pending timeout with a handle is cleared and the handle dropped, unpausing; nothing else changes. |
| App.GraphEditor.Advance | GRAPH_EDITOR_PROJECT_FILES/Code/script_with_comments.js:1578-1609 | With nothing pending, the next step becomes current (the first again after a completed run) and the run is no longer completed. The canvas is the replay of every step up to it from cleared flags; the rest of the playback is unchanged. |
| App.GraphEditor.Finish | GRAPH_EDITOR_PROJECT_FILES/Code/script_with_comments.js:1592-1597 | Past the last step, the run completes with the summary of its algorithm and results; the document and the canvas are unchanged. |
| App.GraphEditor.ShowUpTo | GRAPH_EDITOR_PROJECT_FILES/Code/script_with_comments.js:1600-1609 | The canvas is the replay, with highlights recorded, of steps 0 to k on cleared flags; the playback is unchanged. |

## Left out

- Drawing: the canvas, gradients, arrowheads, the redraw scheduler, the statistics panel and the debounce helper. They only render state.
- Saving to and loading from JSON files: file I/O.
- Modals, button enabling, output text, `stepDescriptions` and the edge preview line: presentation only. The summary is modelled as data (`Playback.Report`), not as HTML.
- Hit tests. Which node or edge lies under the mouse is a geometric test on pixel coordinates, so it is a parameter of `PressNode`, `Release` and `Click`.
- Coordinates and weights are integers. `parseFloat`, fractional weights and the 0.01 tolerance in edge matching are not modelled; edges match on exact weights.
- Selection and dragging refer to nodes by id, not by object reference. A node that was undone away while selected or dragged is therefore looked up by id.
- The worker runs synchronously. `postMessage` and `onmessage` become a call of `Engine.Run` followed by `App.GraphEditor.Deliver`. No other handler can run in between.
- The animation speed and the wall clock: a timeout is modelled by its handle and the step it goes on at, and the browser firing it is `App.GraphEditor.Fire`.
- `isNew` (a one-second glow) and `isDragging` (the cursor) only affect drawing.
- Dijkstra.Dijkstra: does not state that the predecessor links are acyclic. It states that each link is an edge of a settled node along which the distances agree, and the walk-back is bounded by the length cap either way.
- App.GraphEditor.SaveEdgeWeight: models the corrected check of `Editor.SaveEdge`, so a selected id that is no longer a node refuses the edge. As written, the code adds that edge; `Editor.SaveEdgeAsWritten` models this and `Editor.StaleSelectionEdge` exhibits it (see "## Findings").
- App.GraphEditor.SelectAlgorithm: stops the animation with the corrected stop `Playback.Stopped`, which clears the pending timeout. As written, `cancelAnimationFrame` (script_with_comments.js:452-455) leaves it pending; `Playback.StoppedAsWritten` models this and `Playback.TwoChains` exhibits it.
- App.GraphEditor.Reset: stops the animation with the corrected stop `Playback.Stopped`. As written (915-918) the pending timeout stays, as `Playback.StoppedAsWritten` models.
- App.GraphEditor.Run: stops the earlier animation with the corrected stop `Playback.Stopped`, so only the new timeout is pending. As written (1024-1027) the old one stays pending too, as `Playback.TwoChains` shows.
- App.GraphEditor.SaveEdgeWeight: its contract does not restate what undoing the added edge gives back. That is `Editor.UndoAddEdge`, applied to exactly the edit this method records.
- App.GraphEditor.StepThrough: its contract states the canvas as a replay, not what the replay shows. That is `Playback.ReplayShows` and `App.RebuildStep`, applied to exactly this replay. On a completed run the rewind to the first step is folded into the replay, which clears the canvas again.
- App.GraphEditor.ShowUpTo: as for `StepThrough`, what the replay shows is left to `App.RebuildStep`.

## Findings

| source | as written | input that shows it | evidently intended | confidence | as-written member | corrected member |
|---|---|---|---|---|---|---|
| GRAPH_EDITOR_PROJECT_FILES/Code/script_with_comments.js:504-519 | `saveEdgeWeight` adds an edge between the selected ids without checking that they are still nodes; `undo` of an `addNode` leaves the removed node in the selection. | One node 1; add node 2; in edge mode select 2; undo; select 1; save weight 1. The edge 2→1 is added with no node 2, and the next node added gets id 2 and inherits it. | An edge joins two existing nodes, so an edge to a node that is gone is refused. | not executed | Editor.StaleSelectionEdge | Editor.SaveEdgeKeeps |
| GRAPH_EDITOR_PROJECT_FILES/Code/script_with_comments.js:452-455 | `showStartNodeModal`, `resetCanvas` (915-918) and `runAlgorithm` (1024-1027) stop the animation with `cancelAnimationFrame`, but the handle came from `setTimeout`, so the pending timeout is not cancelled. | Start an animation so that a timeout waits to go on at step 5; choose an algorithm and run again. The old callback and the new chain are both pending. | The pending timeout is cleared (`clearTimeout`), leaving a single callback chain. | not executed | Playback.TwoChains | Playback.Stopped |
