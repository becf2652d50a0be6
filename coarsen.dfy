/** `create_subgraph_from_edges` (src/generate/increase_radius.py): the graph
    with one edge-free node per connected component of the input, placed at
    the mean position of the component and carrying its summed FRP. Node p
    of the result stands for the p-th component. */
module Coarsen {
  import opened Graphs
  import opened Aggregates
  import opened Components

  /** Every component is a non-empty list of nodes with attributes. */
  ghost predicate ComponentsCovered(g: GraphValue, comps: seq<seq<nat>>) {
    forall a :: 0 <= a < |comps| ==> comps[a] != [] && Covers(g.attrs, comps[a])
  }

  lemma ComponentsAreCovered(g: GraphValue, comps: seq<seq<nat>>)
    requires Attributed(g) && IsComponents(g, comps)
    ensures ComponentsCovered(g, comps)
  {
    FlattenMember(comps);
  }

  /** The attributes `create_subgraph_from_edges` gives the node of each
      component. */
  function ComponentAttrs(g: GraphValue, comps: seq<seq<nat>>): (r: seq<Attr>)
    requires ComponentsCovered(g, comps)
    ensures |r| == |comps|
  {
    seq(|comps|, a requires 0 <= a < |comps| => Aggregate(g.attrs, comps[a]))
  }

  /** The graph `create_subgraph_from_edges` returns, given the components:
      node a carries the aggregate of component a. */
  function Coarse(g: GraphValue, comps: seq<seq<nat>>): GraphValue
    requires ComponentsCovered(g, comps)
  {
    Numbered(ComponentAttrs(g, comps), |comps|)
  }

  /** The result has one node per component, each at the mean latitude and
      longitude of its component's members and carrying their summed FRP,
      and no edges. */
  lemma CoarseShape(g: GraphValue, comps: seq<seq<nat>>)
    requires ComponentsCovered(g, comps)
    ensures var h := Coarse(g, comps);
      && |h.nodes| == |comps| && WellFormed(h) && Attributed(h)
      && (forall p :: 0 <= p < |comps| ==>
            && h.nodes[p] == p
            && h.attrs[p].lat == Mean(Lats(g.attrs, comps[p]))
            && h.attrs[p].lon == Mean(Lons(g.attrs, comps[p]))
            && h.attrs[p].frp == Sum(Frps(g.attrs, comps[p])))
      && h.weights == map[]
  {
    NumberedValue(ComponentAttrs(g, comps), |comps|);
  }

  lemma FlattenCovered(g: GraphValue, comps: seq<seq<nat>>)
    requires ComponentsCovered(g, comps)
    ensures Covers(g.attrs, Flatten(comps))
  {
    FlattenMember(comps);
  }

  /** The FRPs of a list of attribute records. */
  function FrpOf(attrs: seq<Attr>): (r: seq<real>)
    ensures |r| == |attrs| && forall q :: 0 <= q < |attrs| ==> r[q] == attrs[q].frp
  {
    seq(|attrs|, q requires 0 <= q < |attrs| => attrs[q].frp)
  }

  /** Reading the FRP of the numbered graph's nodes in order gives the FRPs
      of the records it was built from. */
  lemma NumberedFrps(attrs: seq<Attr>)
    ensures Attributed(Numbered(attrs, |attrs|))
    ensures TotalFrp(Numbered(attrs, |attrs|)) == Sum(FrpOf(attrs))
  {
    var h := Numbered(attrs, |attrs|);
    NumberedValue(attrs, |attrs|);
    assert Frps(h.attrs, h.nodes) == FrpOf(attrs);
  }

  /** The FRP of the first p component nodes is the FRP of the members of the
      first p components. */
  lemma {:induction false} ComponentFrps(g: GraphValue, comps: seq<seq<nat>>, p: nat)
    requires p <= |comps| && ComponentsCovered(g, comps)
    ensures Covers(g.attrs, Flatten(comps[..p]))
    ensures Sum(FrpOf(ComponentAttrs(g, comps)[..p])) == Sum(Frps(g.attrs, Flatten(comps[..p])))
  {
    FlattenCovered(g, comps[..p]);
    if p > 0 {
      ComponentFrps(g, comps, p - 1);
      NodeFrpStep(g, comps, p);
      MemberFrpStep(g, comps, p);
    }
  }

  /** Taking one more component node adds that component's FRP. */
  lemma NodeFrpStep(g: GraphValue, comps: seq<seq<nat>>, p: nat)
    requires 0 < p <= |comps| && ComponentsCovered(g, comps)
    ensures Sum(FrpOf(ComponentAttrs(g, comps)[..p]))
         == Sum(FrpOf(ComponentAttrs(g, comps)[..p - 1])) + Sum(Frps(g.attrs, comps[p - 1]))
  {
    var aggs := ComponentAttrs(g, comps);
    assert FrpOf(aggs[..p])[..p - 1] == FrpOf(aggs[..p - 1]);
    assert FrpOf(aggs[..p])[p - 1] == Sum(Frps(g.attrs, comps[p - 1]));
  }

  /** Taking the members of one more component adds their FRP. */
  lemma MemberFrpStep(g: GraphValue, comps: seq<seq<nat>>, p: nat)
    requires 0 < p <= |comps| && ComponentsCovered(g, comps)
    ensures Covers(g.attrs, Flatten(comps[..p])) && Covers(g.attrs, Flatten(comps[..p - 1]))
    ensures Sum(Frps(g.attrs, Flatten(comps[..p])))
         == Sum(Frps(g.attrs, Flatten(comps[..p - 1]))) + Sum(Frps(g.attrs, comps[p - 1]))
  {
    FlattenCovered(g, comps[..p]);
    FlattenCovered(g, comps[..p - 1]);
    FlattenStep(comps, p);
    SumFrpsConcat(g.attrs, Flatten(comps[..p - 1]), comps[p - 1]);
  }

  lemma FlattenStep(comps: seq<seq<nat>>, p: nat)
    requires 0 < p <= |comps|
    ensures Flatten(comps[..p]) == Flatten(comps[..p - 1]) + comps[p - 1]
  {
    assert comps[..p][..p - 1] == comps[..p - 1];
  }

  /** Coarsening conserves total FRP: the components partition the nodes. */
  lemma CoarseConservesFrp(g: GraphValue, comps: seq<seq<nat>>)
    requires WellFormed(g) && Attributed(g) && IsComponents(g, comps)
    ensures ComponentsCovered(g, comps) && Attributed(Coarse(g, comps))
    ensures TotalFrp(Coarse(g, comps)) == TotalFrp(g)
  {
    ComponentsAreCovered(g, comps);
    var aggs := ComponentAttrs(g, comps);
    NumberedFrps(aggs);
    ComponentFrps(g, comps, |comps|);
    assert comps[..|comps|] == comps && aggs[..|comps|] == aggs;
    ComponentsPartition(g, comps);
    SumFrpsPermutation(g.attrs, Flatten(comps), g.nodes);
  }

  /** On an input without edges every node is a component of its own, so
      the result has as many nodes as the input. */
  lemma CoarseEdgeFree(g: GraphValue, comps: seq<seq<nat>>)
    requires WellFormed(g) && Attributed(g) && g.weights == map[] && IsComponents(g, comps)
    ensures ComponentsCovered(g, comps) && |Coarse(g, comps).nodes| == |g.nodes|
  {
    ComponentsAreCovered(g, comps);
    ComponentsEdgeFree(g, comps);
    CoarseShape(g, comps);
  }

  /** There are no components exactly when the graph has no nodes. */
  lemma NoComponentsIffEmpty(g: GraphValue, comps: seq<seq<nat>>)
    requires IsComponents(g, comps)
    ensures |comps| == 0 <==> |g.nodes| == 0
  {
    FlattenMember(comps);
    if |g.nodes| > 0 {
      assert g.nodes[0] in Flatten(comps);
    }
    if |comps| > 0 {
      assert comps[0][0] in Flatten(comps);
    }
  }

  /** `max(components, key=len)`: the first component of greatest size. */
  method LargestComponent(comps: seq<seq<nat>>) returns (best: nat)
    requires |comps| > 0
    ensures best < |comps|
    ensures forall a :: 0 <= a < |comps| ==> |comps[a]| <= |comps[best]|
    ensures forall a :: 0 <= a < best ==> |comps[a]| < |comps[best]|
  {
    best := 0;
    for a := 1 to |comps|
      invariant best < a
      invariant forall b :: 0 <= b < a ==> |comps[b]| <= |comps[best]|
      invariant forall b :: 0 <= b < best ==> |comps[b]| < |comps[best]|
    {
      if |comps[a]| > |comps[best]| {
        best := a;
      }
    }
  }

  /** `create_subgraph_from_edges(G)`: fails on a graph without nodes, where
      `max` has no component to pick; otherwise returns a fresh graph with
      one node per component, and leaves G untouched. */
  method CreateSubgraphFromEdges(graph: Graph) returns (r: Option<Graph>, comps: seq<seq<nat>>)
    requires WellFormed(graph.Value()) && Attributed(graph.Value())
    ensures IsComponents(graph.Value(), comps) && ComponentsCovered(graph.Value(), comps)
    ensures r.None? <==> |graph.nodes| == 0
    ensures r.Some? ==> fresh(r.value) && r.value.Value() == Coarse(graph.Value(), comps)
  {
    ghost var g := graph.Value();
    comps := ConnectedComponents(graph);
    NoComponentsIffEmpty(g, comps);
    ComponentsAreCovered(g, comps);
    if |comps| == 0 {
      return None, comps;
    }
    var largest := LargestComponent(comps);
    var data := graph.attrs;
    var h := new Graph();
    for p := 0 to |comps|
      invariant fresh(h) && h.Value() == Numbered(ComponentAttrs(g, comps), p)
    {
      var lats, longs, frp := AttrLists(data, comps[p]);
      h.AddNode(p, Attr(Mean(lats), Mean(longs), Sum(frp)));
    }
    r := Some(h);
  }
}
