/** The two generation scripts run one after the other: gen_graph.py loads
    the detection table into a graph, merges close detections and joins the
    survivors closer than the first edge distance; increase_radius.py
    coarsens that graph to one node per connected component and joins the
    components closer than the second edge distance. The pickle file between
    them is left out: the second stage starts from the first stage's graph. */
module Pipeline {
  import opened Graphs
  import opened Aggregates
  import opened EdgeBuilder
  import opened MergeGroups
  import opened MergeGraph
  import opened Components
  import opened Coarsen

  /** `G.add_node(index, ...)` for each row of the table: node i carries the
      position and FRP of row i. */
  function Loaded(records: seq<Attr>): (r: GraphValue)
    ensures WellFormed(r) && Attributed(r) && r.weights == map[]
    ensures forall n: nat :: n in r.nodes <==> n < |records|
  {
    NumberedValue(records, |records|);
    Numbered(records, |records|)
  }

  /** The graph gen_graph.py saves: the table merged at distance m, then
      joined below distance e1 (both read with `config.getint`). */
  function Fine(records: seq<Attr>, dist: Distance, m: int, e1: int): (r: GraphValue)
    ensures WellFormed(r) && Attributed(r)
  {
    var g := Loaded(records);
    NumberedValue(records, |records|);
    MergeEdgeFree(g, dist, m as real);
    var h := MergeSpec(g, dist, m as real);
    AddEdgesOnlyAdds(h, dist, e1 as real);
    AddEdgesEffect(h, dist, e1 as real);
    AddEdgesSpec(h, dist, e1 as real)
  }

  /** The graph increase_radius.py saves, given the components of its input
      f: the coarsened graph joined below distance e2. */
  function Final(f: GraphValue, comps: seq<seq<nat>>, dist: Distance, e2: int): GraphValue
    requires ComponentsCovered(f, comps)
  {
    CoarseShape(f, comps);
    AddEdgesSpec(Coarse(f, comps), dist, e2 as real)
  }

  /** The nodes of the first stage's graph are row indices; row 0 always
      survives, so the graph is empty exactly when the table is; a node that
      keys no group keeps its row's attributes. */
  lemma FineNodes(records: seq<Attr>, dist: Distance, m: int, e1: int)
    ensures var f, g := Fine(records, dist, m, e1), Loaded(records);
      && (forall n :: n in f.nodes ==> n < |records|)
      && (|f.nodes| == 0 <==> records == [])
      && (forall n :: n in f.nodes && n !in Grouping(g, dist, m as real).members ==>
            n < |records| && f.attrs[n] == records[n])
  {
    var g := Loaded(records);
    NumberedValue(records, |records|);
    MergeEdgeFree(g, dist, m as real);
    var h := MergeSpec(g, dist, m as real);
    AddEdgesOnlyAdds(h, dist, e1 as real);
    MergeNodes(g, dist, m as real);
    if records != [] {
      FirstNodeSurvives(g, dist, m as real);
      assert 0 in h.nodes;
    }
    forall n | n in h.nodes && n !in Grouping(g, dist, m as real).members
      ensures n < |records| && h.attrs[n] == records[n]
    {
      MergeAttrs(g, dist, m as real, n);
    }
  }

  /** No two detections kept by the first stage were within the merge
      distance of each other. */
  lemma FineApart(records: seq<Attr>, dist: Distance, m: int, e1: int, x: nat, y: nat)
    requires IsDistance(dist)
    requires x in Fine(records, dist, m, e1).nodes && y in Fine(records, dist, m, e1).nodes && x != y
    ensures x < |records| && y < |records|
    ensures dist(records[x].Pos(), records[y].Pos()) >= m as real
  {
    var g := Loaded(records);
    NumberedValue(records, |records|);
    MergeEdgeFree(g, dist, m as real);
    var h := MergeSpec(g, dist, m as real);
    AddEdgesOnlyAdds(h, dist, e1 as real);
    FineNodes(records, dist, m, e1);
    SurvivorsFarApart(g, dist, m as real, x, y);
  }

  /** Every edge of the first stage's graph is shorter than e1, and, the
      distance being symmetric, every two of its nodes closer than e1 are
      joined, with their distance as weight. */
  lemma FineEdges(records: seq<Attr>, dist: Distance, m: int, e1: int)
    ensures var f := Fine(records, dist, m, e1);
      forall e :: e in f.weights ==> f.weights[e] < e1 as real
    ensures var f := Fine(records, dist, m, e1);
      IsDistance(dist) ==> forall u, v ::
        (u in f.nodes && v in f.nodes && u != v && dist(f.attrs[u].Pos(), f.attrs[v].Pos()) < e1 as real) ==>
          E(u, v) in f.weights && f.weights[E(u, v)] == dist(f.attrs[u].Pos(), f.attrs[v].Pos())
  {
    var g := Loaded(records);
    NumberedValue(records, |records|);
    MergeEdgeFree(g, dist, m as real);
    var h := MergeSpec(g, dist, m as real);
    AddEdgesOnlyAdds(h, dist, e1 as real);
    AddEdgesFromScratch(h, dist, e1 as real);
    if IsDistance(dist) {
      forall u, v | u in h.nodes && v in h.nodes && u != v
          && dist(h.attrs[u].Pos(), h.attrs[v].Pos()) < e1 as real
        ensures var f := AddEdgesSpec(h, dist, e1 as real);
          E(u, v) in f.weights && f.weights[E(u, v)] == dist(h.attrs[u].Pos(), h.attrs[v].Pos())
      {
        AddEdgesComplete(h, dist, e1 as real, u, v);
      }
    }
  }

  /** The second stage has one node per component of the first stage's
      graph and conserves its total FRP. */
  lemma FinalConservesFrp(f: GraphValue, comps: seq<seq<nat>>, dist: Distance, e2: int)
    requires WellFormed(f) && Attributed(f) && IsComponents(f, comps)
    ensures ComponentsCovered(f, comps) && Attributed(Final(f, comps, dist, e2))
    ensures |Final(f, comps, dist, e2).nodes| == |comps|
    ensures TotalFrp(Final(f, comps, dist, e2)) == TotalFrp(f)
  {
    ComponentsAreCovered(f, comps);
    var c := Coarse(f, comps);
    CoarseShape(f, comps);
    CoarseConservesFrp(f, comps);
    AddEdgesOnlyAdds(c, dist, e2 as real);
    assert Final(f, comps, dist, e2) == AddEdgesSpec(c, dist, e2 as real);
  }

  /** Every edge of the second stage's graph is shorter than e2. */
  lemma FinalEdges(f: GraphValue, comps: seq<seq<nat>>, dist: Distance, e2: int)
    requires ComponentsCovered(f, comps)
    ensures forall e :: e in Final(f, comps, dist, e2).weights ==> Final(f, comps, dist, e2).weights[e] < e2 as real
  {
    var c := Coarse(f, comps);
    CoarseShape(f, comps);
    AddEdgesFromScratch(c, dist, e2 as real);
    assert Final(f, comps, dist, e2) == AddEdgesSpec(c, dist, e2 as real);
  }

  /** Lines 129-130 of gen_graph.py: the table loaded into a new graph. */
  method LoadDetections(records: seq<Attr>) returns (graph: Graph)
    ensures fresh(graph) && graph.Value() == Loaded(records)
  {
    graph := new Graph();
    for i := 0 to |records|
      invariant fresh(graph) && graph.Value() == Numbered(records, i)
    {
      graph.AddNode(i, records[i]);
    }
  }

  /** gen_graph.py, lines 129-138: load the table, merge close detections,
      join the survivors closer than e1. */
  method GenerateGraph(records: seq<Attr>, dist: Distance, m: int, e1: int) returns (fine: Graph)
    ensures fresh(fine) && fine.Value() == Fine(records, dist, m, e1)
  {
    var loaded := LoadDetections(records);
    NumberedValue(records, |records|);
    fine := MergeCloseNodes(loaded, dist, m as real);
    MergeEdgeFree(loaded.Value(), dist, m as real);
    AddEdgesByDistance(fine, dist, e1 as real);
  }

  /** increase_radius.py, lines 42-46: coarsen the first stage's graph and
      join the components closer than e2; fails on a graph without nodes. */
  method IncreaseRadius(fine: Graph, dist: Distance, e2: int)
    returns (coarse: Option<Graph>, comps: seq<seq<nat>>)
    requires WellFormed(fine.Value()) && Attributed(fine.Value())
    ensures IsComponents(fine.Value(), comps) && ComponentsCovered(fine.Value(), comps)
    ensures coarse.None? <==> |fine.nodes| == 0
    ensures coarse.Some? ==> fresh(coarse.value) && coarse.value.Value() == Final(fine.Value(), comps, dist, e2)
  {
    coarse, comps := CreateSubgraphFromEdges(fine);
    if coarse.Some? {
      CoarseShape(fine.Value(), comps);
      AddEdgesByDistance(coarse.value, dist, e2 as real);
    }
  }

  /** Both scripts in sequence. The second stage fails on an empty table,
      where `create_subgraph_from_edges` has no component to pick. */
  method RunPipeline(records: seq<Attr>, dist: Distance, m: int, e1: int, e2: int)
    returns (fine: Graph, coarse: Option<Graph>, comps: seq<seq<nat>>)
    ensures fresh(fine) && fine.Value() == Fine(records, dist, m, e1)
    ensures IsComponents(fine.Value(), comps) && ComponentsCovered(fine.Value(), comps)
    ensures coarse.None? <==> records == []
    ensures coarse.Some? ==> fresh(coarse.value) && coarse.value.Value() == Final(fine.Value(), comps, dist, e2)
  {
    fine := GenerateGraph(records, dist, m, e1);
    FineNodes(records, dist, m, e1);
    coarse, comps := IncreaseRadius(fine, dist, e2);
  }
}
