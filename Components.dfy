/**
 * `findConnectedComponents`, which feeds the "Connected Components" count of
 * the statistics panel: an adjacency list per node built from the edges
 * (self-loops skipped, both directions when undirected, only for ids that are
 * nodes), then a recursive depth-first search started from every node not yet
 * visited, in node order, each search collecting one component.
 *
 * For a directed graph a component is what a search reaches among the ids not
 * yet visited, so the partition depends on the node order; for an undirected
 * graph whose edges join existing nodes the components are proved to be
 * exactly the connected components.
 */
module Components {
  import opened Sequences
  import opened Graph

  type Adjacency = map<NodeId, seq<NodeId>>

  /** An adjacency entry: an edge other than a self-loop leads from `x` to `y` under the direction rule. */
  ghost predicate StepIn(edges: seq<Edge>, directed: bool, x: NodeId, y: NodeId) {
    x != y && exists e :: e in edges && Connects(e, x, y, directed)
  }

  /** A step of the search: `x` is a node (`adj.get(x)` exists) and an edge leads on to `y`. */
  ghost predicate Step(g: Snapshot, x: NodeId, y: NodeId) {
    x in NodeSet(g) && StepIn(g.edges, g.directed, x, y)
  }

  /** `adj` lists, for each node and nothing else, exactly the ends of its steps. */
  ghost predicate Adjacent(g: Snapshot, adj: Adjacency) {
    adj.Keys == NodeSet(g) && forall x, y :: x in adj ==> (y in adj[x] <==> Step(g, x, y))
  }

  /** Every id a search can meet: the nodes and the ends of the edges. */
  ghost function Universe(g: Snapshot): set<NodeId> {
    NodeSet(g) + (set e | e in g.edges :: e.from) + (set e | e in g.edges :: e.to)
  }

  /** Every edge joins existing nodes, as the editor keeps it. */
  ghost predicate WellFormed(g: Snapshot) {
    forall e :: e in g.edges ==> e.from in NodeSet(g) && e.to in NodeSet(g)
  }

  ghost predicate Path(g: Snapshot, p: seq<NodeId>) {
    |p| >= 1 && forall i :: 0 <= i < |p| - 1 ==> Step(g, p[i], p[i + 1])
  }

  /** `v` can be reached from `u` by steps. */
  ghost predicate Connected(g: Snapshot, u: NodeId, v: NodeId) {
    exists p :: Path(g, p) && p[0] == u && p[|p| - 1] == v
  }

  ghost function Elems(s: seq<NodeId>): set<NodeId> {
    set x | x in s
  }

  /** All ids of a list of components. */
  ghost function Union(cs: seq<seq<NodeId>>): set<NodeId> {
    set i, x | 0 <= i < |cs| && x in cs[i] :: x
  }

  /** The steps of every id in `S` stay in `S`. */
  ghost predicate ClosedUnder(g: Snapshot, S: set<NodeId>) {
    forall x, y :: x in S && Step(g, x, y) ==> y in S
  }

  /** Each adjacency entry of `x` is in `V`. */
  ghost predicate Covered(adj: Adjacency, x: NodeId, V: set<NodeId>) {
    x in adj ==> forall y :: y in adj[x] ==> y in V
  }

  /** A component: non-empty, headed by a node, without repetitions, and reached from its head. */
  ghost predicate Rooted(g: Snapshot, c: seq<NodeId>) {
    c != [] && c[0] in g.nodes && Distinct(c) && forall x :: x in c ==> Connected(g, c[0], x)
  }

  /** No id is in two components. */
  ghost predicate Disjoint(cs: seq<seq<NodeId>>) {
    forall i, j :: 0 <= i < j < |cs| ==> Elems(cs[i]) !! Elems(cs[j])
  }

  /** After each component, everything collected so far is closed under steps. */
  ghost predicate Layered(g: Snapshot, cs: seq<seq<NodeId>>) {
    forall i :: 0 <= i <= |cs| ==> ClosedUnder(g, Union(cs[..i]))
  }

  // ---------------------------------------------------------------- adjacency

  /** The two `forEach` loops that build `adj`. */
  method BuildAdjacency(g: Snapshot) returns (adj: Adjacency)
    ensures Adjacent(g, adj)
  {
    adj := map[];
    for i := 0 to |g.nodes|
      invariant adj.Keys == set j | 0 <= j < i :: g.nodes[j]
      invariant forall x :: x in adj ==> adj[x] == []
    {
      adj := adj[g.nodes[i] := []];
    }
    assert adj.Keys == NodeSet(g) by {
      assert forall v :: v in g.nodes ==> exists j :: 0 <= j < |g.nodes| && g.nodes[j] == v;
    }
    assert g.edges[..0] == [];
    for k := 0 to |g.edges|
      invariant adj.Keys == NodeSet(g)
      invariant forall x, y :: x in adj ==> (y in adj[x] <==> StepIn(g.edges[..k], g.directed, x, y))
    {
      PrefixSnoc(g.edges, k);
      adj := AddEdge(adj, g.edges[k], g.directed, g.edges[..k]);
    }
    assert g.edges[..|g.edges|] == g.edges;
  }

  /** One edge of the second loop: nothing for a self-loop, else `from -> to`, and `to -> from` when undirected. */
  method AddEdge(adj: Adjacency, edge: Edge, directed: bool, ghost done: seq<Edge>) returns (adj': Adjacency)
    requires forall x, y :: x in adj ==> (y in adj[x] <==> StepIn(done, directed, x, y))
    ensures adj'.Keys == adj.Keys
    ensures forall x, y :: x in adj' ==> (y in adj'[x] <==> StepIn(done + [edge], directed, x, y))
  {
    adj' := adj;
    if edge.from != edge.to {
      if edge.from in adj' {
        adj' := adj'[edge.from := adj'[edge.from] + [edge.to]];
      }
      if !directed && edge.to in adj' {
        adj' := adj'[edge.to := adj'[edge.to] + [edge.from]];
      }
    }
    forall x, y | x in adj' ensures y in adj'[x] <==> StepIn(done + [edge], directed, x, y) {
      StepInSnoc(done, edge, directed, x, y);
    }
  }

  lemma StepInSnoc(done: seq<Edge>, edge: Edge, directed: bool, x: NodeId, y: NodeId)
    ensures StepIn(done + [edge], directed, x, y) <==> StepIn(done, directed, x, y) || (x != y && Connects(edge, x, y, directed))
  {
    assert forall e :: e in done + [edge] <==> e in done || e == edge;
  }

  // ---------------------------------------------------------------- the search

  lemma ConnectedSelf(g: Snapshot, u: NodeId)
    ensures Connected(g, u, u)
  {
    assert Path(g, [u]);
  }

  /** A step followed by a path is a path. */
  lemma ConnectedPrepend(g: Snapshot, u: NodeId, w: NodeId, v: NodeId)
    requires Step(g, u, w) && Connected(g, w, v)
    ensures Connected(g, u, v)
  {
    var p :| Path(g, p) && p[0] == w && p[|p| - 1] == v;
    var q := [u] + p;
    forall i | 0 <= i < |q| - 1 ensures Step(g, q[i], q[i + 1]) {
      if i > 0 {
        assert q[i] == p[i - 1] && q[i + 1] == p[i];
      }
    }
    assert Path(g, q);
  }

  lemma StepUniverse(g: Snapshot, x: NodeId, y: NodeId)
    requires Step(g, x, y)
    ensures y in Universe(g)
  {
    var e :| e in g.edges && Connects(e, x, y, g.directed);
  }

  /**
   * `dfsComponent(u, component)`, with `visited` passed in and returned: it
   * visits `u` and every id reachable from it through unvisited ids, appends
   * them to the component, and leaves each of them with its whole adjacency
   * list visited.
   */
  method Explore(g: Snapshot, adj: Adjacency, u: NodeId, visited: set<NodeId>, component: seq<NodeId>)
    returns (visited': set<NodeId>, component': seq<NodeId>)
    requires Adjacent(g, adj)
    requires u in Universe(g) && u !in visited && visited <= Universe(g)
    requires Distinct(component) && Elems(component) <= visited
    ensures visited + {u} <= visited' <= Universe(g)
    ensures |component'| > |component| && component'[..|component|] == component && component'[|component|] == u
    ensures Distinct(component') && Elems(component') == Elems(component) + (visited' - visited)
    ensures forall x :: x in visited' - visited ==> Connected(g, u, x) && Covered(adj, x, visited')
    decreases |Universe(g) - visited|
  {
    visited' := visited + {u};
    DistinctSnoc(component, u);
    component' := component + [u];
    ConnectedSelf(g, u);
    var neighbors := if u in adj then adj[u] else [];
    for k := 0 to |neighbors|
      invariant Progress(g, adj, u, visited, component, visited', component')
      invariant forall j :: 0 <= j < k ==> neighbors[j] in visited'
    {
      var neighbor := neighbors[k];
      if neighbor !in visited' {
        assert Step(g, u, neighbor);
        StepUniverse(g, u, neighbor);
        StrictSubsetSize(Universe(g) - visited', Universe(g) - visited);
        ghost var (v0, c0) := (visited', component');
        visited', component' := Explore(g, adj, neighbor, visited', component');
        ExploreKeeps(g, adj, u, neighbor, visited, component, v0, c0, visited', component');
      }
    }
    assert Covered(adj, u, visited');
  }

  /**
   * The state inside `dfsComponent(u, ...)`: `u` and what was found since are
   * visited, appended once each, reached from `u`, and all but `u` have their
   * adjacency lists visited.
   */
  ghost predicate Progress(g: Snapshot, adj: Adjacency, u: NodeId, visited: set<NodeId>, component: seq<NodeId>,
                           visited': set<NodeId>, component': seq<NodeId>) {
    && visited + {u} <= visited' <= Universe(g)
    && |component'| > |component| && component'[..|component|] == component && component'[|component|] == u
    && Distinct(component') && Elems(component') == Elems(component) + (visited' - visited)
    && (forall x :: x in visited' - visited ==> Connected(g, u, x))
    && (forall x :: x in visited' - visited - {u} ==> Covered(adj, x, visited'))
  }

  /** The loop invariant of `Explore` survives one recursive call. */
  lemma ExploreKeeps(g: Snapshot, adj: Adjacency, u: NodeId, w: NodeId,
                     visited: set<NodeId>, component: seq<NodeId>,
                     v0: set<NodeId>, c0: seq<NodeId>, v1: set<NodeId>, c1: seq<NodeId>)
    requires Adjacent(g, adj) && Step(g, u, w)
    requires Progress(g, adj, u, visited, component, v0, c0)
    requires v0 + {w} <= v1 <= Universe(g) && |c1| > |c0| && c1[..|c0|] == c0
    requires Distinct(c1) && Elems(c1) == Elems(c0) + (v1 - v0)
    requires forall x :: x in v1 - v0 ==> Connected(g, w, x) && Covered(adj, x, v1)
    ensures Progress(g, adj, u, visited, component, v1, c1)
  {
    assert c1[..|component|] == c0[..|component|];
    assert c1[|component|] == c0[|component|];
    forall x | x in v1 - visited ensures Connected(g, u, x) {
      if x !in v0 {
        ConnectedPrepend(g, u, w, x);
      }
    }
    forall x | x in v0 - visited - {u} && x in adj ensures forall y :: y in adj[x] ==> y in v1 {
      assert Covered(adj, x, v0);
    }
  }

  /**
   * `findConnectedComponents`: the components collected by the searches started
   * from the unvisited nodes in node order.  They are non-empty, headed by a
   * node and reached from it, pairwise disjoint, cover every node, use only ids
   * the edges mention, and each closes what was collected before it under steps.
   */
  method FindComponents(g: Snapshot) returns (cs: seq<seq<NodeId>>)
    ensures |g.nodes| == 0 ==> cs == []
    ensures forall i :: 0 <= i < |cs| ==> Rooted(g, cs[i])
    ensures Disjoint(cs)
    ensures NodeSet(g) <= Union(cs) <= Universe(g)
    ensures Layered(g, cs)
  {
    cs := [];
    if |g.nodes| == 0 {
      return;
    }
    var visited := {};
    var adj := BuildAdjacency(g);
    for i := 0 to |g.nodes|
      invariant Partition(g, cs, visited)
      invariant forall j :: 0 <= j < i ==> g.nodes[j] in visited
    {
      var id := g.nodes[i];
      if id !in visited {
        var visited', component := Explore(g, adj, id, visited, []);
        if |component| > 0 {
          Collect(g, adj, id, visited, cs, visited', component);
          cs := cs + [component];
        }
        visited := visited';
      }
    }
    assert forall v :: v in g.nodes ==> exists j :: 0 <= j < |g.nodes| && g.nodes[j] == v;
  }

  /**
   * What the outer loop keeps: `visited` is what the components hold, it is
   * closed under steps, and the components so far are rooted, disjoint and layered.
   */
  ghost predicate Partition(g: Snapshot, cs: seq<seq<NodeId>>, visited: set<NodeId>) {
    visited == Union(cs) && visited <= Universe(g) && ClosedUnder(g, visited)
    && (forall j :: 0 <= j < |cs| ==> Rooted(g, cs[j])) && Disjoint(cs) && Layered(g, cs)
  }

  /** Appending the component of one search keeps the partition invariant. */
  lemma Collect(g: Snapshot, adj: Adjacency, u: NodeId, visited: set<NodeId>, cs: seq<seq<NodeId>>,
                visited': set<NodeId>, c: seq<NodeId>)
    requires Adjacent(g, adj) && u in g.nodes && Partition(g, cs, visited)
    requires visited + {u} <= visited' <= Universe(g) && |c| > 0 && c[0] == u
    requires Distinct(c) && Elems(c) == visited' - visited
    requires forall x :: x in visited' - visited ==> Connected(g, u, x) && Covered(adj, x, visited')
    ensures Partition(g, cs + [c], visited')
  {
    var cs' := cs + [c];
    forall j | 0 <= j < |cs'| ensures Rooted(g, cs'[j]) {
      if j < |cs| {
        assert cs'[j] == cs[j];
      }
    }
    UnionSnoc(cs, c);
    forall x, y | x in visited' && Step(g, x, y) ensures y in visited' {
      if x !in visited {
        assert y in adj[x];
      }
    }
    forall x | x in c ensures Connected(g, c[0], x) {
      assert x in Elems(c);
    }
    forall i, j | 0 <= i < j < |cs'| ensures Elems(cs'[i]) !! Elems(cs'[j]) {
      if j == |cs| {
        forall x | x in cs[i] ensures x !in Elems(c) {
          assert x in Union(cs);
        }
      } else {
        assert cs'[i] == cs[i] && cs'[j] == cs[j];
      }
    }
    forall i | 0 <= i <= |cs'| ensures ClosedUnder(g, Union(cs'[..i])) {
      if i == |cs'| {
        assert cs'[..i] == cs';
      } else {
        assert cs'[..i] == cs[..i];
      }
    }
  }

  lemma UnionSnoc(cs: seq<seq<NodeId>>, c: seq<NodeId>)
    ensures Union(cs + [c]) == Union(cs) + Elems(c)
  {
    var cs' := cs + [c];
    forall x | x in Union(cs') ensures x in Union(cs) + Elems(c) {
      var i :| 0 <= i < |cs'| && x in cs'[i];
      if i < |cs| {
        assert cs'[i] == cs[i];
      }
    }
    forall x | x in Union(cs) + Elems(c) ensures x in Union(cs') {
      if x in Union(cs) {
        var i :| 0 <= i < |cs| && x in cs[i];
        assert cs'[i] == cs[i];
      } else {
        assert cs'[|cs|] == c;
      }
    }
  }

  // ---------------------------------------------------------------- undirected graphs

  /**
   * For an undirected graph whose edges join existing nodes, the steps of a
   * component's ids stay in that component.
   */
  lemma SameComponent(g: Snapshot, cs: seq<seq<NodeId>>, i: nat, x: NodeId, y: NodeId)
    requires !g.directed && WellFormed(g) && Union(cs) <= Universe(g) && Disjoint(cs) && Layered(g, cs)
    requires i < |cs| && x in cs[i] && Step(g, x, y)
    ensures y in cs[i]
  {
    // `y` lies in some component `j` up to `i`, since the first `i + 1` are closed.
    assert cs[..i + 1][i] == cs[i];
    assert ClosedUnder(g, Union(cs[..i + 1]));
    assert y in Union(cs[..i + 1]);
    var j :| 0 <= j < i + 1 && y in cs[..i + 1][j];
    assert y in cs[j];
    // Undirected, `x` is a step of `y`, so it lies in a component `l` up to `j`:
    // that is `i`, components being disjoint, so `j` is `i`.
    var e :| e in g.edges && Connects(e, x, y, g.directed);
    assert e.from in NodeSet(g) && e.to in NodeSet(g);
    assert Step(g, y, x);
    assert cs[..j + 1][j] == cs[j];
    assert ClosedUnder(g, Union(cs[..j + 1]));
    var l :| 0 <= l < j + 1 && x in cs[..j + 1][l];
    assert x in Elems(cs[l]) && x in Elems(cs[i]);
    assert l == i;
  }

  lemma {:induction false} PathStays(g: Snapshot, cs: seq<seq<NodeId>>, i: nat, p: seq<NodeId>, k: nat)
    requires !g.directed && WellFormed(g) && Union(cs) <= Universe(g) && Disjoint(cs) && Layered(g, cs)
    requires i < |cs| && Path(g, p) && p[0] in cs[i] && k < |p|
    ensures p[k] in cs[i]
  {
    if k > 0 {
      PathStays(g, cs, i, p, k - 1);
      SameComponent(g, cs, i, p[k - 1], p[k]);
    }
  }

  /**
   * For an undirected graph whose edges join existing nodes, the components
   * are the connected components: each holds exactly what its head is
   * connected to, and together they hold exactly the nodes.
   */
  lemma UndirectedComponents(g: Snapshot, cs: seq<seq<NodeId>>)
    requires !g.directed && WellFormed(g)
    requires forall i :: 0 <= i < |cs| ==> Rooted(g, cs[i])
    requires Disjoint(cs) && NodeSet(g) <= Union(cs) <= Universe(g) && Layered(g, cs)
    ensures Union(cs) == NodeSet(g)
    ensures forall i, v :: 0 <= i < |cs| ==> cs[i] != [] && (v in cs[i] <==> Connected(g, cs[i][0], v))
  {
    UniverseNodes(g);
    forall i, v | 0 <= i < |cs| && Connected(g, cs[i][0], v) ensures v in cs[i] {
      var p :| Path(g, p) && p[0] == cs[i][0] && p[|p| - 1] == v;
      PathStays(g, cs, i, p, |p| - 1);
    }
  }

  lemma UniverseNodes(g: Snapshot)
    requires WellFormed(g)
    ensures Universe(g) == NodeSet(g)
  {
  }
}
