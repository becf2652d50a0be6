/** `add_edges_by_distance` (src/generate/gen_graph.py): joins every pair of
    nodes closer than a threshold by an edge weighted with their distance. */
module EdgeBuilder {
  import opened Graphs

  /** The loop body for the pair at positions i < j of the node snapshot `g`,
      applied to the graph `h` being updated. */
  function AddPair(g: GraphValue, dist: Distance, t: real, h: GraphValue, i: nat, j: nat): GraphValue
    requires Attributed(g) && i < j < |g.nodes|
  {
    var u, v := g.nodes[i], g.nodes[j];
    var d := dist(g.attrs[u].Pos(), g.attrs[v].Pos());
    if d < t then AddEdgeV(h, u, v, d) else h
  }

  /** The inner loop of row i after the pairs (i, i+1) .. (i, j-1). */
  function AddRow(g: GraphValue, dist: Distance, t: real, h: GraphValue, i: nat, j: nat): GraphValue
    requires Attributed(g) && i < |g.nodes| && j <= |g.nodes|
    decreases j
  {
    if j <= i + 1 then h else AddPair(g, dist, t, AddRow(g, dist, t, h, i, j - 1), i, j - 1)
  }

  /** The outer loop after rows 0 .. i-1. */
  function AddUpTo(g: GraphValue, dist: Distance, t: real, i: nat): GraphValue
    requires Attributed(g) && i <= |g.nodes|
  {
    if i == 0 then g else AddRow(g, dist, t, AddUpTo(g, dist, t, i - 1), i - 1, |g.nodes|)
  }

  /** The graph after `add_edges_by_distance(graph, t)`. */
  function AddEdgesSpec(g: GraphValue, dist: Distance, t: real): GraphValue
    requires Attributed(g)
  {
    AddUpTo(g, dist, t, |g.nodes|)
  }

  /** What the graph holds for the pair at positions p < q: the distance when
      the pair has been visited and is close, the original edge otherwise. */
  ghost predicate PairState(g: GraphValue, dist: Distance, t: real, h: GraphValue, p: nat, q: nat, visited: bool)
    requires Attributed(g) && p < q < |g.nodes|
  {
    var e := E(g.nodes[p], g.nodes[q]);
    var d := dist(g.attrs[g.nodes[p]].Pos(), g.attrs[g.nodes[q]].Pos());
    if visited && d < t then
      e in h.weights && h.weights[e] == d
    else
      (e in h.weights <==> e in g.weights) && (e in g.weights ==> h.weights[e] == g.weights[e])
  }

  /** The loop invariant: nodes and attributes untouched, the graph well formed,
      and every pair in the state PairState describes. */
  ghost predicate Progress(g: GraphValue, dist: Distance, t: real, h: GraphValue, i: nat, j: nat)
    requires Attributed(g)
  {
    && h.nodes == g.nodes && h.attrs == g.attrs && WellFormed(h)
    && forall p, q :: 0 <= p < q < |g.nodes| ==> PairState(g, dist, t, h, p, q, Before(p, q, i, j))
  }

  /** Two position pairs name the same edge only if they are the same pair. */
  lemma EdgeOfPositions(ns: seq<nat>, p: nat, q: nat, i: nat, j: nat)
    requires Distinct(ns) && p < q < |ns| && i < j < |ns|
    requires E(ns[p], ns[q]) == E(ns[i], ns[j])
    ensures p == i && q == j
  {
  }

  /** One visited pair changes the state of no other pair. */
  lemma AddPairOther(g: GraphValue, dist: Distance, t: real, h: GraphValue, i: nat, j: nat, p: nat, q: nat, visited: bool)
    requires WellFormed(g) && Attributed(g) && i < j < |g.nodes| && p < q < |g.nodes| && (p, q) != (i, j)
    requires PairState(g, dist, t, h, p, q, visited)
    ensures PairState(g, dist, t, AddPair(g, dist, t, h, i, j), p, q, visited)
  {
    if E(g.nodes[p], g.nodes[q]) == E(g.nodes[i], g.nodes[j]) {
      EdgeOfPositions(g.nodes, p, q, i, j);
    }
  }

  lemma AddPairSelf(g: GraphValue, dist: Distance, t: real, h: GraphValue, i: nat, j: nat)
    requires WellFormed(g) && Attributed(g) && i < j < |g.nodes|
    requires PairState(g, dist, t, h, i, j, false)
    ensures PairState(g, dist, t, AddPair(g, dist, t, h, i, j), i, j, true)
  {
  }

  lemma AddPairShape(g: GraphValue, dist: Distance, t: real, h: GraphValue, i: nat, j: nat)
    requires WellFormed(g) && Attributed(g) && i < j < |g.nodes|
    requires h.nodes == g.nodes && h.attrs == g.attrs && WellFormed(h)
    ensures var h' := AddPair(g, dist, t, h, i, j);
      h'.nodes == g.nodes && h'.attrs == g.attrs && WellFormed(h')
  {
    var u, v := g.nodes[i], g.nodes[j];
    var d := dist(g.attrs[u].Pos(), g.attrs[v].Pos());
    if d < t {
      AddEdgeWellFormed(h, u, v, d);
      WithEndpointsShape(h.nodes, u, v);
    }
  }

  lemma {:induction false} AddPairProgress(g: GraphValue, dist: Distance, t: real, h: GraphValue, i: nat, j: nat)
    requires WellFormed(g) && Attributed(g) && i < j < |g.nodes|
    requires Progress(g, dist, t, h, i, j)
    ensures Progress(g, dist, t, AddPair(g, dist, t, h, i, j), i, j + 1)
  {
    var h' := AddPair(g, dist, t, h, i, j);
    AddPairShape(g, dist, t, h, i, j);
    var next := j + 1;
    forall p, q | 0 <= p < q < |g.nodes|
      ensures PairState(g, dist, t, h', p, q, Before(p, q, i, next))
    {
      assert PairState(g, dist, t, h, p, q, Before(p, q, i, j));
      if (p, q) == (i, j) {
        AddPairSelf(g, dist, t, h, i, j);
      } else {
        assert Before(p, q, i, j) == Before(p, q, i, next);
        AddPairOther(g, dist, t, h, i, j, p, q, Before(p, q, i, j));
      }
    }
  }

  lemma {:induction false} AddRowProgress(g: GraphValue, dist: Distance, t: real, h: GraphValue, i: nat, j: nat)
    requires WellFormed(g) && Attributed(g) && i < |g.nodes| && i < j <= |g.nodes|
    requires Progress(g, dist, t, h, i, i + 1)
    ensures Progress(g, dist, t, AddRow(g, dist, t, h, i, j), i, j)
    decreases j
  {
    if j > i + 1 {
      AddRowProgress(g, dist, t, h, i, j - 1);
      AddPairProgress(g, dist, t, AddRow(g, dist, t, h, i, j - 1), i, j - 1);
    }
  }

  lemma {:induction false} AddUpToProgress(g: GraphValue, dist: Distance, t: real, i: nat)
    requires WellFormed(g) && Attributed(g) && i <= |g.nodes|
    ensures Progress(g, dist, t, AddUpTo(g, dist, t, i), i, i + 1)
  {
    if i > 0 {
      var h := AddUpTo(g, dist, t, i - 1);
      AddUpToProgress(g, dist, t, i - 1);
      AddRowProgress(g, dist, t, h, i - 1, |g.nodes|);
      var h' := AddUpTo(g, dist, t, i);
      var prev, n, next := i - 1, |g.nodes|, i + 1;
      forall p, q | 0 <= p < q < |g.nodes|
        ensures PairState(g, dist, t, h', p, q, Before(p, q, i, next))
      {
        assert PairState(g, dist, t, h', p, q, Before(p, q, prev, n));
        assert Before(p, q, prev, n) == Before(p, q, i, next);
      }
    }
  }

  /** The full effect of `add_edges_by_distance` on a well-formed graph whose
      nodes all carry attributes: nodes and attributes unchanged, the graph
      still well formed, every close pair joined with weight equal to its
      distance, and every other pair exactly as before. */
  lemma AddEdgesEffect(g: GraphValue, dist: Distance, t: real)
    requires WellFormed(g) && Attributed(g)
    ensures var r := AddEdgesSpec(g, dist, t);
      && r.nodes == g.nodes && r.attrs == g.attrs && WellFormed(r)
      && forall p, q :: 0 <= p < q < |g.nodes| ==> PairState(g, dist, t, r, p, q, true)
  {
    var n := |g.nodes|;
    var next := n + 1;
    AddUpToProgress(g, dist, t, n);
    forall p, q | 0 <= p < q < n
      ensures PairState(g, dist, t, AddEdgesSpec(g, dist, t), p, q, true)
    {
      assert PairState(g, dist, t, AddEdgesSpec(g, dist, t), p, q, Before(p, q, n, next));
    }
  }

  /** Soundness: an edge that is new, or whose weight changed, joins two
      distinct nodes and is weighted with their distance, which is below the
      threshold. */
  lemma AddEdgesSound(g: GraphValue, dist: Distance, t: real, p: nat, q: nat)
    requires WellFormed(g) && Attributed(g) && p < q < |g.nodes|
    requires var e := E(g.nodes[p], g.nodes[q]);
      var r := AddEdgesSpec(g, dist, t);
      e in r.weights && (e !in g.weights || r.weights[e] != g.weights[e])
    ensures g.nodes[p] != g.nodes[q]
    ensures var w := AddEdgesSpec(g, dist, t).weights[E(g.nodes[p], g.nodes[q])];
      w == dist(g.attrs[g.nodes[p]].Pos(), g.attrs[g.nodes[q]].Pos()) && w < t
  {
    AddEdgesEffect(g, dist, t);
    assert PairState(g, dist, t, AddEdgesSpec(g, dist, t), p, q, true);
  }

  /** Every edge of the result joins two nodes at some positions p < q. */
  lemma AddEdgesEdgesArePairs(g: GraphValue, dist: Distance, t: real, e: Edge)
    requires WellFormed(g) && Attributed(g) && e in AddEdgesSpec(g, dist, t).weights
    ensures exists p, q :: 0 <= p < q < |g.nodes| && E(g.nodes[p], g.nodes[q]) == e
  {
    AddEdgesEffect(g, dist, t);
    var a :| 0 <= a < |g.nodes| && g.nodes[a] == e.lo;
    var b :| 0 <= b < |g.nodes| && g.nodes[b] == e.hi;
    if a < b {
      assert E(g.nodes[a], g.nodes[b]) == e;
    } else {
      assert E(g.nodes[b], g.nodes[a]) == e;
    }
  }

  /** Completeness: two distinct nodes closer than the threshold are joined
      afterwards by an edge weighted with their distance. */
  lemma AddEdgesComplete(g: GraphValue, dist: Distance, t: real, u: nat, v: nat)
    requires WellFormed(g) && Attributed(g) && IsDistance(dist)
    requires u in g.nodes && v in g.nodes && u != v
    requires dist(g.attrs[u].Pos(), g.attrs[v].Pos()) < t
    ensures E(u, v) in AddEdgesSpec(g, dist, t).weights
    ensures AddEdgesSpec(g, dist, t).weights[E(u, v)] == dist(g.attrs[u].Pos(), g.attrs[v].Pos())
  {
    AddEdgesEffect(g, dist, t);
    var a :| 0 <= a < |g.nodes| && g.nodes[a] == u;
    var b :| 0 <= b < |g.nodes| && g.nodes[b] == v;
    if a < b {
      assert PairState(g, dist, t, AddEdgesSpec(g, dist, t), a, b, true);
    } else {
      assert PairState(g, dist, t, AddEdgesSpec(g, dist, t), b, a, true);
    }
  }

  /** Only additions: nodes, attributes and every existing edge stay; an
      existing weight changes only for a pair below the threshold. */
  lemma AddEdgesOnlyAdds(g: GraphValue, dist: Distance, t: real)
    requires WellFormed(g) && Attributed(g)
    ensures AddEdgesSpec(g, dist, t).nodes == g.nodes
    ensures AddEdgesSpec(g, dist, t).attrs == g.attrs
    ensures g.weights.Keys <= AddEdgesSpec(g, dist, t).weights.Keys
    ensures forall e :: e in g.weights && AddEdgesSpec(g, dist, t).weights[e] != g.weights[e] ==>
              AddEdgesSpec(g, dist, t).weights[e] < t
  {
    var r := AddEdgesSpec(g, dist, t);
    AddEdgesEffect(g, dist, t);
    forall e | e in g.weights
      ensures e in r.weights && (r.weights[e] != g.weights[e] ==> r.weights[e] < t)
    {
      var a :| 0 <= a < |g.nodes| && g.nodes[a] == e.lo;
      var b :| 0 <= b < |g.nodes| && g.nodes[b] == e.hi;
      if a < b {
        assert E(g.nodes[a], g.nodes[b]) == e;
        assert PairState(g, dist, t, r, a, b, true);
      } else {
        assert E(g.nodes[b], g.nodes[a]) == e;
        assert PairState(g, dist, t, r, b, a, true);
      }
    }
  }

  /** On an edge-free graph the result's edges are exactly the close pairs,
      each weighted with its distance, which is below the threshold. */
  lemma AddEdgesFromScratch(g: GraphValue, dist: Distance, t: real)
    requires WellFormed(g) && Attributed(g) && g.weights == map[]
    ensures forall p, q :: 0 <= p < q < |g.nodes| ==>
      var e := E(g.nodes[p], g.nodes[q]);
      var d := dist(g.attrs[g.nodes[p]].Pos(), g.attrs[g.nodes[q]].Pos());
      (e in AddEdgesSpec(g, dist, t).weights <==> d < t) &&
      (e in AddEdgesSpec(g, dist, t).weights ==> AddEdgesSpec(g, dist, t).weights[e] == d)
    ensures forall e :: e in AddEdgesSpec(g, dist, t).weights ==> AddEdgesSpec(g, dist, t).weights[e] < t
  {
    var r := AddEdgesSpec(g, dist, t);
    AddEdgesEffect(g, dist, t);
    forall p, q | 0 <= p < q < |g.nodes|
      ensures var e := E(g.nodes[p], g.nodes[q]);
        var d := dist(g.attrs[g.nodes[p]].Pos(), g.attrs[g.nodes[q]].Pos());
        (e in r.weights <==> d < t) && (e in r.weights ==> r.weights[e] == d)
    {
      assert PairState(g, dist, t, r, p, q, true);
    }
    forall e | e in r.weights
      ensures r.weights[e] < t
    {
      AddEdgesEdgesArePairs(g, dist, t, e);
      var p, q :| 0 <= p < q < |g.nodes| && E(g.nodes[p], g.nodes[q]) == e;
      assert PairState(g, dist, t, r, p, q, true);
    }
  }

  /** `add_edges_by_distance(graph, distance_threshold)`, updating the graph in place. */
  method AddEdgesByDistance(graph: Graph, dist: Distance, t: real)
    requires Attributed(graph.Value())
    modifies graph
    ensures graph.Value() == AddEdgesSpec(old(graph.Value()), dist, t)
  {
    ghost var g := graph.Value();
    var nodes, data := graph.nodes, graph.attrs;
    for i := 0 to |nodes|
      invariant graph.Value() == AddUpTo(g, dist, t, i)
    {
      for j := i + 1 to |nodes|
        invariant graph.Value() == AddRow(g, dist, t, AddUpTo(g, dist, t, i), i, j)
      {
        var d := dist(data[nodes[i]].Pos(), data[nodes[j]].Pos());
        if d < t {
          graph.AddEdge(nodes[i], nodes[j], d);
        }
      }
    }
  }
}
