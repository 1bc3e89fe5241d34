/**
 * The Bellman-Ford branch of the worker (`algorithm === 'bellman-ford'`): at
 * most |nodes| - 1 passes over the edge list, each announced by an iteration
 * step and stopped early once a pass changes nothing; each edge is relaxed
 * from `from` to `to`, and for an undirected graph then from `to` to `from`;
 * a final scan reports every edge that could still be relaxed from a reachable
 * node as a negative cycle; the shortest-path edges are traced back with a
 * visited guard; and `complete` is recorded only when the scan found nothing.
 *
 * The verdict is proved exact: the scan reports nothing if and only if every
 * final distance is right (finite exactly for the nodes reachable from the
 * start, and then the weight of a lightest walk), and each reported edge leads
 * to a node whose distance is wrong.
 */
module BellmanFord {
  import opened Sequences
  import opened Graph
  import opened Trace
  import opened Paths

  /**
   * The relaxation test `distances[u] !== Infinity && distances[u] + weight < distances[v]`.
   * An id without a distance never passes it: the sum or the comparison is NaN.
   */
  predicate Improves(dist: Distances, u: NodeId, v: NodeId, w: int) {
    u in dist && v in dist && dist[u].Fin? && Below(dist[u].d + w, dist[v])
  }

  /** Neither direction a pass tries improves on the edge `e`. */
  predicate Calm(dist: Distances, e: Edge, directed: bool) {
    !Improves(dist, e.from, e.to, e.weight) && (!directed ==> !Improves(dist, e.to, e.from, e.weight))
  }

  /** No edge improves any distance: a pass would change nothing. */
  ghost predicate Fixed(g: Snapshot, dist: Distances) {
    forall e :: e in g.edges ==> Calm(dist, e, g.directed)
  }

  ghost function Finite(dist: Distances): set<NodeId> {
    set v | v in dist && dist[v].Fin?
  }

  /**
   * The tables between relaxations: they cover the nodes, the start is at a
   * finite distance no more than 0, `reachable` holds exactly the nodes at a
   * finite distance, and each finite distance is the weight of a walk.
   */
  ghost predicate State(g: Snapshot, s: NodeId, dist: Distances, prev: Predecessors, reach: set<NodeId>) {
    && dist.Keys == NodeSet(g) && prev.Keys == NodeSet(g)
    && s in dist && dist[s].Fin? && dist[s].d <= 0
    && reach == Finite(dist)
    && forall v :: v in dist && dist[v].Fin? ==> Achieves(g, s, v, dist[v].d)
  }

  /** The distance of `v` is right: finite exactly when `v` is reachable, and then that of a lightest walk. */
  ghost predicate Correct(g: Snapshot, s: NodeId, dist: Distances, v: NodeId)
    requires v in dist
  {
    (dist[v].Fin? <==> Reachable(g, s, v)) && (dist[v].Fin? ==> Shortest(g, s, v, dist[v].d))
  }

  /** Every walk from `s` of at most `k` edges ends at a finite distance no more than its weight. */
  ghost predicate Within(g: Snapshot, s: NodeId, dist: Distances, k: nat) {
    forall p, es :: WeightedWalk(g, p, es) && p[0] == s && |es| <= k ==>
      p[|es|] in dist && dist[p[|es|]].Fin? && dist[p[|es|]].d <= Weight(es)
  }

  /** No closed walk through a node reachable from `s` weighs less than nothing: no reachable negative cycle. */
  ghost predicate NoNegativeCycle(g: Snapshot, s: NodeId) {
    forall p, es :: WeightedWalk(g, p, es) && p[0] == p[|es|] && Reachable(g, s, p[0]) ==> Weight(es) >= 0
  }

  /** `a` is no more than `b`, Infinity being above every finite value. */
  predicate NoHigher(a: Dist, b: Dist) {
    b.Inf? || (a.Fin? && a.d <= b.d)
  }

  /** No distance has risen from `dist` to `dist'`. */
  ghost predicate Lowered(dist: Distances, dist': Distances) {
    dist'.Keys == dist.Keys && forall v :: v in dist ==> NoHigher(dist'[v], dist[v])
  }

  /** `v` is now within `w` of the distance `u` had in `dist`. */
  predicate Settles(dist: Distances, dist': Distances, u: NodeId, v: NodeId, w: int) {
    u in dist && v in dist && dist[u].Fin? ==> v in dist' && dist'[v].Fin? && dist'[v].d <= dist[u].d + w
  }

  /** Both directions a pass tries on `e` are settled against the distances `dist` the pass began with. */
  predicate Swept(dist: Distances, dist': Distances, e: Edge, directed: bool) {
    Settles(dist, dist', e.from, e.to, e.weight) && (!directed ==> Settles(dist, dist', e.to, e.from, e.weight))
  }

  /** Part way through a pass: no distance has risen and the first `k` edges are swept. */
  ghost predicate Sweeping(g: Snapshot, dist: Distances, dist': Distances, k: nat) {
    Lowered(dist, dist') && forall j :: 0 <= j < k && j < |g.edges| ==> Swept(dist, dist', g.edges[j], g.directed)
  }

  // ---------------------------------------------------------------- the trace

  /** A relaxation step: an edge of the graph, or for an undirected graph an edge read backwards. */
  ghost predicate RelaxStep(g: Snapshot, st: Step) {
    && st.EdgeStep? && !st.isShortestPath
    && (st.edge in g.edges || (!g.directed && Edge(st.edge.to, st.edge.from, st.edge.weight) in g.edges))
  }

  /** The numbers of the iteration steps, in order. */
  ghost function Iterations(t: seq<Step>): seq<int> {
    if t == [] then []
    else Iterations(t[..|t| - 1]) + (if t[|t| - 1].Iteration? then [t[|t| - 1].n] else [])
  }

  /** 1, 2, ..., k. */
  function Upto(k: nat): (r: seq<int>)
    ensures |r| == k && forall i :: 0 <= i < k ==> r[i] == i + 1
  {
    if k == 0 then [] else Upto(k - 1) + [k]
  }

  /** Every iteration step but a final one is followed by a relaxation: only the last pass may change nothing. */
  ghost predicate NoIdlePass(t: seq<Step>) {
    forall j :: 0 <= j < |t| - 1 && t[j].Iteration? ==> t[j + 1].EdgeStep?
  }

  /**
   * The passes seen on the trace: iterations numbered 1 to k, k at most
   * |nodes| - 1, between them relaxations only, every pass but the last one
   * changing something, and a last pass that changes nothing exactly when the
   * passes stop early, at a fixed point.
   */
  ghost predicate Passes(g: Snapshot, dist: Distances, passes: seq<Step>, k: nat) {
    && Iterations(passes) == Upto(k) && k <= |g.nodes| - 1
    && (forall st :: st in passes ==> st.Iteration? || RelaxStep(g, st))
    && NoIdlePass(passes)
    && (k < |g.nodes| - 1 ==> passes != [] && passes[|passes| - 1] == Iteration(k) && Fixed(g, dist))
  }

  lemma {:induction false} IterationsAppend(a: seq<Step>, b: seq<Step>)
    ensures Iterations(a + b) == Iterations(a) + Iterations(b)
    decreases |b|
  {
    if b == [] {
      assert a + b == a;
    } else {
      var b' := b[..|b| - 1];
      assert (a + b)[..|a + b| - 1] == a + b';
      IterationsAppend(a, b');
    }
  }

  lemma {:induction false} IterationsNone(r: seq<Step>)
    requires forall st :: st in r ==> st.EdgeStep?
    ensures Iterations(r) == []
    decreases |r|
  {
    if r != [] {
      assert r[|r| - 1] in r;
      assert forall st :: st in r[..|r| - 1] ==> st in r;
      IterationsNone(r[..|r| - 1]);
    }
  }

  /**
   * One pass seen on the trace: the iteration step numbered `i + 1`, then the
   * relaxations; the numbering goes on and no idle pass is left behind.
   */
  lemma PassTrace(g: Snapshot, t: seq<Step>, i: nat, r: seq<Step>)
    requires Iterations(t) == Upto(i) && NoIdlePass(t) && (t != [] ==> t[|t| - 1].EdgeStep?)
    requires forall st :: st in t ==> st.Iteration? || RelaxStep(g, st)
    requires forall st :: st in r ==> RelaxStep(g, st)
    ensures forall st :: st in t + [Iteration(i + 1)] + r ==> st.Iteration? || RelaxStep(g, st)
    ensures Iterations(t + [Iteration(i + 1)] + r) == Upto(i + 1)
    ensures NoIdlePass(t + [Iteration(i + 1)] + r)
    ensures r != [] ==> (t + [Iteration(i + 1)] + r)[|t + [Iteration(i + 1)] + r| - 1].EdgeStep?
    ensures r == [] ==> (t + [Iteration(i + 1)] + r)[|t + [Iteration(i + 1)] + r| - 1] == Iteration(i + 1)
  {
    var t' := t + [Iteration(i + 1)] + r;
    IterationsAppend(t, [Iteration(i + 1)]);
    IterationsAppend(t + [Iteration(i + 1)], r);
    IterationsNone(r);
    assert Iterations([Iteration(i + 1)]) == [i + 1] by {
      assert [Iteration(i + 1)][..0] == [];
    }
    forall j | 0 <= j < |t'| - 1 ensures t'[j].Iteration? ==> t'[j + 1].EdgeStep? {
      if j < |t| - 1 {
        assert t'[j] == t[j] && t'[j + 1] == t[j + 1];
      } else if j == |t| - 1 {
        assert t'[j] == t[j];
      } else if j == |t| {
        assert t'[j + 1] == r[0] && r[0] in r;
      } else {
        assert t'[j] == r[j - |t| - 1] && t'[j] in r;
      }
    }
    if r != [] {
      assert t'[|t'| - 1] == r[|r| - 1] && r[|r| - 1] in r;
    }
    forall st | st in t' ensures st.Iteration? || RelaxStep(g, st) {
      assert st in t || st == Iteration(i + 1) || st in r;
    }
  }

  // ---------------------------------------------------------------- relaxation

  /** One relaxation test and, when it passes, the update of both tables and the reachable set. */
  method Relax(g: Snapshot, s: NodeId, dist: Distances, prev: Predecessors, reach: set<NodeId>, steps: seq<Step>,
               u: NodeId, v: NodeId, w: int, ghost e: Edge)
    returns (dist': Distances, prev': Predecessors, reach': set<NodeId>, steps': seq<Step>, did: bool)
    requires State(g, s, dist, prev, reach) && e in g.edges && e.weight == w && Connects(e, u, v, g.directed)
    ensures State(g, s, dist', prev', reach')
    ensures did == Improves(dist, u, v, w)
    ensures did ==> (dist' == dist[v := Fin(dist[u].d + w)] && prev' == prev[v := Some(u)]
                     && steps' == steps + [EdgeStep(Edge(u, v, w), false)] && RelaxStep(g, EdgeStep(Edge(u, v, w), false)))
    ensures !did ==> dist' == dist && prev' == prev && reach' == reach && steps' == steps
  {
    if Improves(dist, u, v, w) {
      var alt := dist[u].d + w;
      dist' := dist[v := Fin(alt)];
      prev' := prev[v := Some(u)];
      reach' := reach + {v};
      steps' := steps + [EdgeStep(Edge(u, v, w), false)];
      did := true;
      RelaxKeeps(g, s, dist, prev, reach, u, v, e, dist', prev', reach');
    } else {
      dist', prev', reach', steps', did := dist, prev, reach, steps, false;
    }
  }

  lemma RelaxKeeps(g: Snapshot, s: NodeId, dist: Distances, prev: Predecessors, reach: set<NodeId>,
                   u: NodeId, v: NodeId, e: Edge,
                   dist': Distances, prev': Predecessors, reach': set<NodeId>)
    requires State(g, s, dist, prev, reach) && e in g.edges && Connects(e, u, v, g.directed)
    requires Improves(dist, u, v, e.weight)
    requires dist' == dist[v := Fin(dist[u].d + e.weight)] && prev' == prev[v := Some(u)] && reach' == reach + {v}
    ensures State(g, s, dist', prev', reach') && RelaxStep(g, EdgeStep(Edge(u, v, e.weight), false))
  {
    AchievesStep(g, s, u, dist[u].d, e, v);
    assert Finite(dist') == Finite(dist) + {v};
    forall x | x in dist' && dist'[x].Fin? ensures Achieves(g, s, x, dist'[x].d) {
      if x != v {
        assert dist'[x] == dist[x];
      }
    }
  }

  /** Both relaxation tests `edge` gives rise to: `from` to `to`, and back when undirected. */
  method RelaxEdge(g: Snapshot, s: NodeId, dist: Distances, prev: Predecessors, reach: set<NodeId>, steps: seq<Step>,
                   edge: Edge)
    returns (dist': Distances, prev': Predecessors, reach': set<NodeId>, steps': seq<Step>, did: bool)
    requires State(g, s, dist, prev, reach) && edge in g.edges
    ensures State(g, s, dist', prev', reach')
    ensures |steps'| >= |steps| && steps'[..|steps|] == steps
    ensures forall st :: st in steps'[|steps|..] ==> RelaxStep(g, st)
    ensures did <==> |steps'| > |steps|
    ensures !did ==> dist' == dist && prev' == prev && Calm(dist, edge, g.directed)
    ensures Lowered(dist, dist') && Swept(dist, dist', edge, g.directed)
  {
    dist', prev', reach', steps', did := Relax(g, s, dist, prev, reach, steps, edge.from, edge.to, edge.weight, edge);
    Extended(g, steps, steps, steps');
    RelaxLowers(dist, dist, dist', edge.from, edge.to, edge.weight);
    if !g.directed {
      ghost var d1, before := dist', steps';
      var back;
      dist', prev', reach', steps', back := Relax(g, s, dist', prev', reach', steps', edge.to, edge.from, edge.weight, edge);
      Extended(g, steps, before, steps');
      RelaxLowers(dist, d1, dist', edge.to, edge.from, edge.weight);
      SettlesLowered(dist, d1, dist', edge.from, edge.to, edge.weight);
      did := did || back;
    }
  }

  /** One pass over the edge list (`for (const edge of workerEdges)`), both directions when undirected. */
  method Pass(g: Snapshot, s: NodeId, dist: Distances, prev: Predecessors, reach: set<NodeId>, steps: seq<Step>)
    returns (dist': Distances, prev': Predecessors, reach': set<NodeId>, steps': seq<Step>, changed: bool)
    requires State(g, s, dist, prev, reach)
    ensures State(g, s, dist', prev', reach')
    ensures |steps'| >= |steps| && steps'[..|steps|] == steps
    ensures forall st :: st in steps'[|steps|..] ==> RelaxStep(g, st)
    ensures changed <==> |steps'| > |steps|
    ensures !changed ==> dist' == dist && prev' == prev && Fixed(g, dist)
    ensures Lowered(dist, dist') && forall e :: e in g.edges ==> Swept(dist, dist', e, g.directed)
  {
    dist', prev', reach', steps' := dist, prev, reach, steps;
    changed := false;
    for k := 0 to |g.edges|
      invariant State(g, s, dist', prev', reach')
      invariant Sweeping(g, dist, dist', k)
      invariant |steps'| >= |steps| && steps'[..|steps|] == steps
      invariant forall st :: st in steps'[|steps|..] ==> RelaxStep(g, st)
      invariant changed <==> |steps'| > |steps|
      invariant !changed ==> dist' == dist && prev' == prev && forall j :: 0 <= j < k ==> Calm(dist, g.edges[j], g.directed)
    {
      var did;
      ghost var before, d0 := steps', dist';
      dist', prev', reach', steps', did := RelaxEdge(g, s, dist', prev', reach', steps', g.edges[k]);
      changed := changed || did;
      Chained(g, steps, before, steps');
      SweepStep(g, dist, d0, dist', k);
    }
    forall e | e in g.edges ensures Swept(dist, dist', e, g.directed) {
      var j :| 0 <= j < |g.edges| && g.edges[j] == e;
    }
    if !changed {
      forall e | e in g.edges ensures Calm(dist, e, g.directed) {
        var j :| 0 <= j < |g.edges| && g.edges[j] == e;
      }
    }
  }

  /** A trace extended by relaxations, then extended by relaxations again. */
  lemma Chained(g: Snapshot, steps: seq<Step>, mid: seq<Step>, after: seq<Step>)
    requires |mid| >= |steps| && mid[..|steps|] == steps && forall st :: st in mid[|steps|..] ==> RelaxStep(g, st)
    requires |after| >= |mid| && after[..|mid|] == mid && forall st :: st in after[|mid|..] ==> RelaxStep(g, st)
    ensures |after| >= |steps| && after[..|steps|] == steps && forall st :: st in after[|steps|..] ==> RelaxStep(g, st)
  {
    assert after[..|steps|] == mid[..|steps|];
    forall st | st in after[|steps|..] ensures RelaxStep(g, st) {
      var i :| |steps| <= i < |after| && after[i] == st;
      if i < |mid| {
        assert st == mid[i] && mid[i] in mid[|steps|..];
      } else {
        assert st in after[|mid|..];
      }
    }
  }

  /** Appending nothing or one relaxation keeps a trace's tail made of relaxations. */
  lemma Extended(g: Snapshot, steps: seq<Step>, mid: seq<Step>, after: seq<Step>)
    requires |mid| >= |steps| && mid[..|steps|] == steps && forall st :: st in mid[|steps|..] ==> RelaxStep(g, st)
    requires after == mid || (|after| == |mid| + 1 && after[..|mid|] == mid && RelaxStep(g, after[|mid|]))
    ensures |after| >= |steps| && after[..|steps|] == steps && forall st :: st in after[|steps|..] ==> RelaxStep(g, st)
    ensures |after| >= |mid|
  {
    if after != mid {
      assert after == mid + [after[|mid|]];
      assert after[|steps|..] == mid[|steps|..] + [after[|mid|]];
    }
  }

  /** One relaxation test against the current distances lowers nothing below what it settles. */
  lemma RelaxLowers(dist0: Distances, dist: Distances, dist': Distances, u: NodeId, v: NodeId, w: int)
    requires Lowered(dist0, dist)
    requires Improves(dist, u, v, w) ==> dist' == dist[v := Fin(dist[u].d + w)]
    requires !Improves(dist, u, v, w) ==> dist' == dist
    ensures Lowered(dist0, dist') && Lowered(dist, dist') && Settles(dist0, dist', u, v, w)
  {
    if Improves(dist, u, v, w) {
      assert dist'.Keys == dist.Keys;
    }
  }

  lemma SettlesLowered(dist0: Distances, dist: Distances, dist': Distances, u: NodeId, v: NodeId, w: int)
    requires Settles(dist0, dist, u, v, w) && Lowered(dist, dist')
    ensures Settles(dist0, dist', u, v, w)
  {
  }

  /** A distance settled against lower distances is settled against the higher ones too. */
  lemma SettlesEarlier(dist0: Distances, mid: Distances, dist': Distances, u: NodeId, v: NodeId, w: int)
    requires Lowered(dist0, mid) && Settles(mid, dist', u, v, w)
    ensures Settles(dist0, dist', u, v, w)
  {
  }

  /** Sweeping edge `k` extends a partial pass by one edge. */
  lemma SweepStep(g: Snapshot, dist: Distances, mid: Distances, dist': Distances, k: nat)
    requires k < |g.edges| && Sweeping(g, dist, mid, k) && Lowered(mid, dist')
    requires Swept(mid, dist', g.edges[k], g.directed)
    ensures Sweeping(g, dist, dist', k + 1)
  {
    var e := g.edges[k];
    SettlesEarlier(dist, mid, dist', e.from, e.to, e.weight);
    if !g.directed {
      SettlesEarlier(dist, mid, dist', e.to, e.from, e.weight);
    }
    forall j | 0 <= j < k && j < |g.edges| ensures Swept(dist, dist', g.edges[j], g.directed) {
      var e := g.edges[j];
      SettlesLowered(dist, mid, dist', e.from, e.to, e.weight);
      if !g.directed {
        SettlesLowered(dist, mid, dist', e.to, e.from, e.weight);
      }
    }
  }

  /** Before any pass only the empty walk counts, and the start is at a distance no more than 0. */
  lemma WithinStart(g: Snapshot, s: NodeId, dist: Distances, prev: Predecessors, reach: set<NodeId>)
    requires State(g, s, dist, prev, reach)
    ensures Within(g, s, dist, 0)
  {
    forall p, es | WeightedWalk(g, p, es) && p[0] == s && |es| <= 0
      ensures p[|es|] in dist && dist[p[|es|]].Fin? && dist[p[|es|]].d <= Weight(es)
    {
      assert es == [];
    }
  }

  /** A pass that sweeps every edge lets every walk of one more edge count. */
  lemma WithinPass(g: Snapshot, s: NodeId, dist: Distances, dist': Distances, prev': Predecessors,
                   reach': set<NodeId>, k: nat)
    requires Within(g, s, dist, k) && State(g, s, dist', prev', reach') && dist.Keys == dist'.Keys
    requires forall e :: e in g.edges ==> Swept(dist, dist', e, g.directed)
    ensures Within(g, s, dist', k + 1)
  {
    forall p, es | WeightedWalk(g, p, es) && p[0] == s && |es| <= k + 1
      ensures p[|es|] in dist' && dist'[p[|es|]].Fin? && dist'[p[|es|]].d <= Weight(es)
    {
      var m := |es|;
      if m == 0 {
        assert es == [];
      } else {
        WalkPrefix(g, p, es, m - 1);
        var q: seq<NodeId>, fs: seq<Edge> := p[..m], es[..m - 1];
        assert q[0] == s && q[|fs|] == p[m - 1] && |fs| <= k;
        assert dist[p[m - 1]].Fin? && dist[p[m - 1]].d <= Weight(fs);
        var e: Edge := es[m - 1];
        assert Weight(es) == Weight(fs) + e.weight;
        assert Swept(dist, dist', e, g.directed) && Connects(e, p[m - 1], p[m], g.directed);
        if e.from == p[m - 1] && e.to == p[m] {
          assert Settles(dist, dist', p[m - 1], p[m], e.weight);
        } else {
          assert Settles(dist, dist', e.to, e.from, e.weight);
        }
      }
    }
  }

  // ---------------------------------------------------------------- convergence

  /**
   * With no reachable negative cycle, every walk from the start weighs at least
   * the distance at its end once walks of |nodes| - 1 edges count: a longer walk
   * passes some node twice, and cutting out the closed walk between leaves a
   * shorter walk that weighs no more.
   */
  lemma {:induction false} ShortWalk(g: Snapshot, s: NodeId, dist: Distances, p: seq<NodeId>, es: seq<Edge>)
    requires |g.nodes| > 0 && Within(g, s, dist, |g.nodes| - 1) && NoNegativeCycle(g, s)
    requires WeightedWalk(g, p, es) && p[0] == s
    ensures p[|es|] in dist && dist[p[|es|]].Fin? && dist[p[|es|]].d <= Weight(es)
    decreases |es|
  {
    if |es| > |g.nodes| - 1 {
      ElementsSize(g.nodes);
      assert NodeSet(g) == set x | x in g.nodes;
      forall x | x in p ensures x in NodeSet(g) {
        var i :| 0 <= i < |p| && p[i] == x;
      }
      var i, j := Repeat(p, NodeSet(g));
      var p', es' := Splice(g, p, es, i, j);
      WalkPrefix(g, p, es, i);
      assert p[..i + 1][0] == s && p[..i + 1][|p[..i + 1]| - 1] == p[i];
      AchievesReachable(g, s, p[i], Weight(es[..i]));
      assert p[i..j + 1][0] == p[i];
      ShortWalk(g, s, dist, p', es');
    }
  }

  /** Bellman-Ford's theorem: with no reachable negative cycle, |nodes| - 1 passes leave every distance right. */
  lemma Converges(g: Snapshot, s: NodeId, dist: Distances, prev: Predecessors, reach: set<NodeId>)
    requires State(g, s, dist, prev, reach) && s in g.nodes
    requires Within(g, s, dist, |g.nodes| - 1) && NoNegativeCycle(g, s)
    ensures forall v :: v in dist ==> Correct(g, s, dist, v)
  {
    forall v | v in dist ensures Correct(g, s, dist, v) {
      if Reachable(g, s, v) {
        var p :| IsWalk(g, p) && p[0] == s && p[|p| - 1] == v;
        var es := WeighWalk(g, p);
        ShortWalk(g, s, dist, p, es);
      }
      if dist[v].Fin? {
        AchievesReachable(g, s, v, dist[v].d);
        forall p, es | WeightedWalk(g, p, es) && p[0] == s && p[|p| - 1] == v ensures dist[v].d <= Weight(es) {
          ShortWalk(g, s, dist, p, es);
        }
      }
    }
  }

  /**
   * Conversely, where every distance is right no reachable cycle is negative: the
   * lightest walk to a node on it, followed by the cycle, would be lighter still.
   */
  lemma CorrectNoCycle(g: Snapshot, s: NodeId, dist: Distances)
    requires dist.Keys == NodeSet(g) && forall v :: v in dist ==> Correct(g, s, dist, v)
    ensures NoNegativeCycle(g, s)
  {
    forall p, es | WeightedWalk(g, p, es) && p[0] == p[|es|] && Reachable(g, s, p[0]) ensures Weight(es) >= 0 {
      var v := p[0];
      assert Correct(g, s, dist, v);
      var d := dist[v].d;
      var q, fs :| WeightedWalk(g, q, fs) && q[0] == s && q[|q| - 1] == v && Weight(fs) == d;
      WalkConcat(g, q, fs, p, es);
      var r := q + p[1..];
      if es == [] {
        assert r == q;
      } else {
        assert r[|r| - 1] == p[|es|];
      }
      assert WeightedWalk(g, r, fs + es) && r[0] == s && r[|r| - 1] == v;
    }
  }

  /**
   * After the passes, every distance is right exactly when no negative cycle is
   * reachable: the passes either stopped at a fixed point or ran |nodes| - 1 times.
   */
  lemma Settled(g: Snapshot, s: NodeId, dist: Distances, prev: Predecessors, reach: set<NodeId>,
                passes: seq<Step>, k: nat)
    requires State(g, s, dist, prev, reach) && s in g.nodes
    requires Passes(g, dist, passes, k) && Within(g, s, dist, k)
    ensures (forall v :: v in dist ==> Correct(g, s, dist, v)) <==> NoNegativeCycle(g, s)
  {
    if NoNegativeCycle(g, s) {
      if k < |g.nodes| - 1 {
        FixedCorrect(g, s, dist, prev, reach);
      } else {
        Converges(g, s, dist, prev, reach);
      }
    }
    if forall v :: v in dist ==> Correct(g, s, dist, v) {
      CorrectNoCycle(g, s, dist);
    }
  }

  /** Without negative weights there is no negative cycle. */
  lemma NonNegativeNoCycle(g: Snapshot, s: NodeId)
    requires NonNegative(g)
    ensures NoNegativeCycle(g, s)
  {
    forall p, es | WeightedWalk(g, p, es) && p[0] == p[|es|] && Reachable(g, s, p[0]) ensures Weight(es) >= 0 {
      WeightPrefix(g, es, 0);
    }
  }

  /**
   * On a graph without negative weights, distances of Dijkstra's kind (finite
   * exactly for the reachable nodes, and then a lightest walk's weight) equal
   * distances that are right whenever no negative cycle is reachable, as
   * Bellman-Ford's are.
   */
  lemma MatchesDijkstra(g: Snapshot, s: NodeId, shortest: Distances, dist: Distances)
    requires NonNegative(g) && shortest.Keys == NodeSet(g) && dist.Keys == NodeSet(g)
    requires forall v :: v in shortest ==> (shortest[v].Fin? <==> Reachable(g, s, v))
    requires forall v :: v in shortest && shortest[v].Fin? ==> Shortest(g, s, v, shortest[v].d)
    requires NoNegativeCycle(g, s) ==> forall v :: v in dist ==> Correct(g, s, dist, v)
    ensures shortest == dist
  {
    NonNegativeNoCycle(g, s);
    forall v | v in shortest ensures shortest[v] == dist[v] {
      assert Correct(g, s, dist, v);
      if shortest[v].Fin? {
        var a, b := shortest[v].d, dist[v].d;
        var p, es :| WeightedWalk(g, p, es) && p[0] == s && p[|p| - 1] == v && Weight(es) == a;
        var q, fs :| WeightedWalk(g, q, fs) && q[0] == s && q[|q| - 1] == v && Weight(fs) == b;
      }
    }
  }

  // ---------------------------------------------------------------- the negative-cycle scan

  /** An edge the scan reports (`reachable.has(u) && distances[u] !== Infinity && ...`). */
  predicate Flagged(dist: Distances, reach: set<NodeId>, u: NodeId, v: NodeId, w: int) {
    u in reach && Improves(dist, u, v, w)
  }

  /** The reports the scan makes for one edge: forwards, then (undirected) backwards. */
  function Found(dist: Distances, reach: set<NodeId>, directed: bool, e: Edge): seq<Edge> {
    (if Flagged(dist, reach, e.from, e.to, e.weight) then [Edge(e.from, e.to, e.weight)] else [])
    + (if !directed && Flagged(dist, reach, e.to, e.from, e.weight) then [Edge(e.to, e.from, e.weight)] else [])
  }

  /** The `cycleEdges` list the scan builds over an edge list. */
  function ScanEdges(dist: Distances, reach: set<NodeId>, directed: bool, edges: seq<Edge>): seq<Edge>
    decreases |edges|
  {
    if edges == [] then []
    else ScanEdges(dist, reach, directed, edges[..|edges| - 1]) + Found(dist, reach, directed, edges[|edges| - 1])
  }

  /** One `negative_cycle` step per reported edge. */
  function Reports(cycles: seq<Edge>): (r: seq<Step>)
    ensures |r| == |cycles| && forall i :: 0 <= i < |cycles| ==> r[i] == NegativeCycle(cycles[i])
  {
    if cycles == [] then [] else Reports(cycles[..|cycles| - 1]) + [NegativeCycle(cycles[|cycles| - 1])]
  }

  /** The scan loop: the reported edges and their steps. */
  method Scan(g: Snapshot, dist: Distances, reach: set<NodeId>) returns (cycles: seq<Edge>, steps: seq<Step>)
    ensures cycles == ScanEdges(dist, reach, g.directed, g.edges) && steps == Reports(cycles)
  {
    cycles, steps := [], [];
    for k := 0 to |g.edges|
      invariant cycles == ScanEdges(dist, reach, g.directed, g.edges[..k]) && steps == Reports(cycles)
    {
      PrefixSnoc(g.edges, k);
      cycles, steps := ScanEdge(dist, reach, g.directed, g.edges[k], cycles, steps);
    }
    assert g.edges[..|g.edges|] == g.edges;
  }

  /** The scan of one edge: forwards, then (undirected) backwards. */
  method ScanEdge(dist: Distances, reach: set<NodeId>, directed: bool, edge: Edge, cycles: seq<Edge>, steps: seq<Step>)
    returns (cycles': seq<Edge>, steps': seq<Step>)
    requires steps == Reports(cycles)
    ensures cycles' == cycles + Found(dist, reach, directed, edge) && steps' == Reports(cycles')
  {
    cycles', steps' := cycles, steps;
    var u, v, w := edge.from, edge.to, edge.weight;
    if u in reach && Improves(dist, u, v, w) {
      ReportsSnoc(cycles', Edge(u, v, w));
      cycles' := cycles' + [Edge(u, v, w)];
      steps' := steps' + [NegativeCycle(Edge(u, v, w))];
    }
    if !directed {
      u, v := edge.to, edge.from;
      if u in reach && Improves(dist, u, v, w) {
        ReportsSnoc(cycles', Edge(u, v, w));
        cycles' := cycles' + [Edge(u, v, w)];
        steps' := steps' + [NegativeCycle(Edge(u, v, w))];
      }
    }
  }

  lemma ReportsSnoc(cycles: seq<Edge>, c: Edge)
    ensures Reports(cycles + [c]) == Reports(cycles) + [NegativeCycle(c)]
  {
    assert (cycles + [c])[..|cycles|] == cycles;
  }

  /** Each reported edge is an improvable edge of the graph, read forwards or (undirected) backwards. */
  lemma {:induction false} ScanMembers(dist: Distances, reach: set<NodeId>, g: Snapshot, edges: seq<Edge>, c: Edge)
    requires c in ScanEdges(dist, reach, g.directed, edges)
    ensures exists e :: e in edges && Connects(e, c.from, c.to, g.directed) && e.weight == c.weight
    ensures Flagged(dist, reach, c.from, c.to, c.weight)
    decreases |edges|
  {
    var n := |edges|;
    var e := edges[n - 1];
    if c in ScanEdges(dist, reach, g.directed, edges[..n - 1]) {
      ScanMembers(dist, reach, g, edges[..n - 1], c);
      var e' :| e' in edges[..n - 1] && Connects(e', c.from, c.to, g.directed) && e'.weight == c.weight;
      assert e' in edges;
    } else {
      assert c in Found(dist, reach, g.directed, e);
      assert e in edges;
    }
  }

  /** The scan reports nothing exactly when no edge is improvable, given that `reach` holds the finite nodes. */
  lemma {:induction false} ScanEmpty(dist: Distances, reach: set<NodeId>, directed: bool, edges: seq<Edge>)
    requires reach == Finite(dist)
    ensures ScanEdges(dist, reach, directed, edges) == [] <==> forall e :: e in edges ==> Calm(dist, e, directed)
    decreases |edges|
  {
    if edges != [] {
      var n := |edges|;
      ScanEmpty(dist, reach, directed, edges[..n - 1]);
      var e := edges[n - 1];
      assert Found(dist, reach, directed, e) == [] <==> Calm(dist, e, directed);
      assert forall x :: x in edges <==> x in edges[..n - 1] || x == e;
    }
  }

  // ---------------------------------------------------------------- the verdict

  /** Across a calm edge the far end is at a finite distance, at most the weight behind. */
  lemma CalmConnects(dist: Distances, e: Edge, directed: bool, x: NodeId, y: NodeId)
    requires Calm(dist, e, directed) && Connects(e, x, y, directed)
    requires x in dist && y in dist && dist[x].Fin?
    ensures dist[y].Fin? && dist[y].d <= dist[x].d + e.weight
  {
    if !(e.from == x && e.to == y) {
      assert !Improves(dist, e.to, e.from, e.weight);
    }
  }

  /** At a fixed point each walk ends at a finite distance at most its weight past its first node's. */
  lemma {:induction false} WalkBound(g: Snapshot, dist: Distances, p: seq<NodeId>, es: seq<Edge>)
    requires Fixed(g, dist) && dist.Keys == NodeSet(g) && WeightedWalk(g, p, es) && dist[p[0]].Fin?
    ensures dist[p[|es|]].Fin? && dist[p[|es|]].d <= dist[p[0]].d + Weight(es)
    decreases |es|
  {
    if es != [] {
      var n := |es|;
      WalkPrefix(g, p, es, n - 1);
      WalkBound(g, dist, p[..n], es[..n - 1]);
      assert p[..n][n - 1] == p[n - 1];
      CalmConnects(dist, es[n - 1], g.directed, p[n - 1], p[n]);
    }
  }

  /** A fixed point of the relaxations has every distance right. */
  lemma FixedCorrect(g: Snapshot, s: NodeId, dist: Distances, prev: Predecessors, reach: set<NodeId>)
    requires State(g, s, dist, prev, reach) && Fixed(g, dist)
    ensures forall v :: v in dist ==> Correct(g, s, dist, v)
  {
    var F := Finite(dist);
    forall x, y | x in F && y in NeighbourSet(g, x) ensures y in F {
      var e :| e in g.edges && Incident(e, x, g.directed) && OtherEnd(e, x) in g.nodes && OtherEnd(e, x) == y;
      IncidentConnects(e, x, g.directed);
      CalmConnects(dist, e, g.directed, x, y);
    }
    assert Closed(g, F);
    forall v | v in dist ensures Correct(g, s, dist, v) {
      if dist[v].Fin? {
        AchievesReachable(g, s, v, dist[v].d);
        forall p, es | WeightedWalk(g, p, es) && p[0] == s && p[|p| - 1] == v ensures dist[v].d <= Weight(es) {
          WalkBound(g, dist, p, es);
        }
      } else if Reachable(g, s, v) {
        ClosedHoldsReachable(g, s, F, v);
      }
    }
  }

  /** An edge that still improves leads to a node whose distance is wrong. */
  lemma Overshoot(g: Snapshot, s: NodeId, dist: Distances, prev: Predecessors, reach: set<NodeId>,
                  e: Edge, u: NodeId, v: NodeId)
    requires State(g, s, dist, prev, reach) && e in g.edges && Connects(e, u, v, g.directed)
    requires Improves(dist, u, v, e.weight)
    ensures !Correct(g, s, dist, v)
  {
    var d := dist[u].d + e.weight;
    AchievesStep(g, s, u, dist[u].d, e, v);
    var p, es :| WeightedWalk(g, p, es) && p[0] == s && p[|p| - 1] == v && Weight(es) == d;
    if dist[v].Fin? {
      assert !LowerBound(g, s, v, dist[v].d) by {
        assert WeightedWalk(g, p, es) && p[0] == s && p[|p| - 1] == v && !(dist[v].d <= Weight(es));
      }
    } else {
      AchievesReachable(g, s, v, d);
    }
  }

  /**
   * The scan's verdict: it reports nothing exactly when every distance is right,
   * and each edge it reports ends at a node whose distance is wrong.
   */
  lemma Verdict(g: Snapshot, s: NodeId, dist: Distances, prev: Predecessors, reach: set<NodeId>)
    requires State(g, s, dist, prev, reach)
    ensures ScanEdges(dist, reach, g.directed, g.edges) == [] <==> forall v :: v in dist ==> Correct(g, s, dist, v)
    ensures forall c :: c in ScanEdges(dist, reach, g.directed, g.edges) ==> c.to in dist && !Correct(g, s, dist, c.to)
  {
    ScanEmpty(dist, reach, g.directed, g.edges);
    forall c | c in ScanEdges(dist, reach, g.directed, g.edges) ensures c.to in dist && !Correct(g, s, dist, c.to) {
      ScanMembers(dist, reach, g, g.edges, c);
      var e :| e in g.edges && Connects(e, c.from, c.to, g.directed) && e.weight == c.weight;
      Overshoot(g, s, dist, prev, reach, e, c.from, c.to);
    }
    if ScanEdges(dist, reach, g.directed, g.edges) == [] {
      FixedCorrect(g, s, dist, prev, reach);
    } else {
      var c := ScanEdges(dist, reach, g.directed, g.edges)[0];
      assert c in ScanEdges(dist, reach, g.directed, g.edges);
    }
  }

  // ---------------------------------------------------------------- the algorithm

  /** The tables after the set-up: all Infinity except the start at 0. */
  lemma Begin(g: Snapshot, s: NodeId, dist: Distances, prev: Predecessors)
    requires s in g.nodes && dist.Keys == NodeSet(g) && prev.Keys == NodeSet(g)
    requires dist[s] == Fin(0) && forall v :: v in dist && v != s ==> dist[v] == Inf
    ensures State(g, s, dist, prev, {s})
  {
    AchievesStart(g, s);
    assert Finite(dist) == {s};
  }

  /** One turn of the outer loop: the iteration step for pass `k + 1`, then the pass. */
  method Round(g: Snapshot, s: NodeId, dist: Distances, prev: Predecessors, reach: set<NodeId>, passes: seq<Step>,
               k: nat)
    returns (dist': Distances, prev': Predecessors, reach': set<NodeId>, passes': seq<Step>, changed: bool)
    requires State(g, s, dist, prev, reach) && Within(g, s, dist, k)
    requires forall st :: st in passes ==> st.Iteration? || RelaxStep(g, st)
    requires Iterations(passes) == Upto(k) && NoIdlePass(passes)
    requires passes != [] ==> passes[|passes| - 1].EdgeStep?
    ensures State(g, s, dist', prev', reach') && Within(g, s, dist', k + 1)
    ensures forall st :: st in passes' ==> st.Iteration? || RelaxStep(g, st)
    ensures Iterations(passes') == Upto(k + 1) && NoIdlePass(passes')
    ensures changed ==> passes'[|passes'| - 1].EdgeStep?
    ensures !changed ==> passes' != [] && passes'[|passes'| - 1] == Iteration(k + 1) && Fixed(g, dist')
  {
    var mid := passes + [Iteration(k + 1)];
    dist', prev', reach', passes', changed := Pass(g, s, dist, prev, reach, mid);
    WithinPass(g, s, dist, dist', prev', reach', k);
    ghost var r := passes'[|mid|..];
    assert passes' == passes + [Iteration(k + 1)] + r;
    PassTrace(g, passes, k, r);
  }

  /**
   * The `for (let i = 0; i < workerNodes.length - 1; i++)` loop: up to |nodes| - 1
   * passes, each announced by an iteration step, stopping after the first pass
   * that changes nothing.
   */
  method Iterate(g: Snapshot, s: NodeId, dist: Distances, prev: Predecessors, reach: set<NodeId>)
    returns (dist': Distances, prev': Predecessors, reach': set<NodeId>, passes: seq<Step>, k: nat)
    requires State(g, s, dist, prev, reach)
    ensures State(g, s, dist', prev', reach')
    ensures Passes(g, dist', passes, k)
    ensures Within(g, s, dist', k)
  {
    dist', prev', reach' := dist, prev, reach;
    passes, k := [], 0;
    WithinStart(g, s, dist, prev, reach);
    while k < |g.nodes| - 1
      invariant State(g, s, dist', prev', reach')
      invariant Within(g, s, dist', k)
      invariant k <= |g.nodes| - 1
      invariant forall st :: st in passes ==> st.Iteration? || RelaxStep(g, st)
      invariant Iterations(passes) == Upto(k) && NoIdlePass(passes)
      invariant passes != [] ==> passes[|passes| - 1].EdgeStep?
    {
      var changed;
      dist', prev', reach', passes, changed := Round(g, s, dist', prev', reach', passes, k);
      k := k + 1;
      if !changed {
        break;
      }
    }
  }

  /**
   * The whole Bellman-Ford branch.  The trace is the start marker, the passes
   * (iterations numbered 1 to k, k at most |nodes| - 1, only the last one
   * possibly idle, and it idle exactly when the passes stopped early), one
   * `negative_cycle` step per reported edge, the shortest-path edges of the
   * reachable nodes, and `complete` exactly when nothing was reported; nothing is
   * reported exactly when all distances are right.
   */
  method BellmanFord(g: Snapshot, s: NodeId)
    returns (steps: seq<Step>, dist: Distances, prev: Predecessors, cycles: seq<Edge>,
             ghost passes: seq<Step>, ghost k: nat)
    requires s in g.nodes
    ensures dist.Keys == NodeSet(g) && prev.Keys == NodeSet(g)
    ensures forall v :: v in dist && dist[v].Fin? ==> Achieves(g, s, v, dist[v].d)
    ensures steps == [NodeStep(s)] + passes + Reports(cycles)
      + AllMarks(g, s, dist, prev, true, Finite(dist), g.nodes) + (if cycles == [] then [Complete] else [])
    ensures Passes(g, dist, passes, k)
    ensures cycles == ScanEdges(dist, Finite(dist), g.directed, g.edges)
    ensures cycles == [] <==> forall v :: v in dist ==> Correct(g, s, dist, v)
    ensures cycles == [] <==> NoNegativeCycle(g, s)
    ensures forall c :: c in cycles ==> c.to in dist && !Correct(g, s, dist, c.to)
    ensures forall v :: |NodeMarks(g, s, dist, prev, true, Finite(dist), v)| <= |NodeSet(g)|
  {
    dist, prev := InitTables(g);
    dist := dist[s := Fin(0)];
    Begin(g, s, dist, prev);
    var reachable, traversal, iterations;
    dist, prev, reachable, traversal, iterations := Iterate(g, s, dist, prev, {s});
    passes, k := traversal, iterations;
    var cycleSteps;
    cycles, cycleSteps := Scan(g, dist, reachable);
    Verdict(g, s, dist, prev, reachable);
    Settled(g, s, dist, prev, reachable, passes, k);
    var marks := EmitPaths(g, s, dist, prev, true, reachable);
    forall v ensures |NodeMarks(g, s, dist, prev, true, Finite(dist), v)| <= |NodeSet(g)| {
      GuardedBound(g, s, prev, v);
    }
    steps := [NodeStep(s)] + traversal + cycleSteps + marks;
    if cycles == [] {
      steps := steps + [Complete];
    }
  }
}
