/** The part of an undirected networkx graph that the fire-graph pipeline uses:
    nodes in insertion order, a record of attributes per node, and one weight
    per unordered pair of nodes. */
module Graphs {

  datatype Option<T> = None | Some(value: T)

  /** A geographic position in degrees. */
  datatype Point = Point(lat: real, lon: real)

  /** The attributes of a fire detection: position and fire radiative power. */
  datatype Attr = Attr(lat: real, lon: real, frp: real) {
    function Pos(): Point { Point(lat, lon) }
  }

  /** Great-circle distance in kilometres between two positions; the haversine
      library computes it, so the model takes it as a parameter. */
  type Distance = (Point, Point) -> real

  /** A distance function with the two properties the pipeline relies on. */
  ghost predicate IsDistance(dist: Distance) {
    forall p, q :: dist(p, q) == dist(q, p) && dist(p, q) >= 0.0
  }

  /** An unordered pair of node ids, kept with the smaller id first. */
  datatype Edge = Edge(lo: nat, hi: nat)

  function E(u: nat, v: nat): Edge {
    if u <= v then Edge(u, v) else Edge(v, u)
  }

  /** The value held by a graph object. A node without an entry in `attrs` is
      a node networkx created implicitly through `add_edge`. */
  datatype GraphValue = GraphValue(nodes: seq<nat>, attrs: map<nat, Attr>, weights: map<Edge, real>)

  const EmptyGraph := GraphValue([], map[], map[])

  predicate Distinct(s: seq<nat>) {
    forall p, q :: 0 <= p < q < |s| ==> s[p] != s[q]
  }

  /** A position at which a listed node occurs. */
  lemma NodeIndex(ns: seq<nat>, x: nat) returns (p: nat)
    requires x in ns
    ensures p < |ns| && ns[p] == x
  {
    p :| 0 <= p < |ns| && ns[p] == x;
  }

  /** The set of values a sequence holds. */
  function Values(s: seq<nat>): set<nat> {
    set d | d in s
  }

  /** Node ids are unique, attributes belong to nodes, and every edge joins two
      distinct nodes of the graph. */
  ghost predicate WellFormed(g: GraphValue) {
    && Distinct(g.nodes)
    && (forall n :: n in g.attrs ==> n in g.nodes)
    && (forall e :: e in g.weights ==> e.lo < e.hi && e.lo in g.nodes && e.hi in g.nodes)
  }

  /** Every node carries Latitude, Longitude and FRP; reading them from a node
      that lacks them raises KeyError in the source. */
  ghost predicate Attributed(g: GraphValue) {
    forall n :: n in g.nodes ==> n in g.attrs
  }

  /** `distance < distance_threshold` for the ordered pair (u, v). */
  predicate Close(g: GraphValue, dist: Distance, t: real, u: nat, v: nat)
    requires u in g.attrs && v in g.attrs
  {
    dist(g.attrs[u].Pos(), g.attrs[v].Pos()) < t
  }

  /** The node list after `add_edge(u, v)` created whichever endpoint was missing. */
  function WithEndpoints(ns: seq<nat>, u: nat, v: nat): seq<nat> {
    var withU := if u in ns then ns else ns + [u];
    if v in withU then withU else withU + [v]
  }

  /** The pair of positions (p, q) comes before (i, j) in the order of the
      nested loops `for i in range(n): for j in range(i + 1, n)`. */
  predicate Before(p: nat, q: nat, i: nat, j: nat) {
    p < i || (p == i && q < j)
  }

  /** `G.add_node(n, **attr)`: appends a new id, and sets the attributes. */
  function AddNodeV(g: GraphValue, n: nat, a: Attr): GraphValue {
    GraphValue(if n in g.nodes then g.nodes else g.nodes + [n], g.attrs[n := a], g.weights)
  }

  /** `G.add_edge(u, v, weight=w)`: creates missing endpoints without
      attributes, and adds the edge or overwrites its weight. */
  function AddEdgeV(g: GraphValue, u: nat, v: nat, w: real): GraphValue {
    GraphValue(WithEndpoints(g.nodes, u, v), g.attrs, g.weights[E(u, v) := w])
  }

  /** `G.degree(n)`: the number of edges at n (there are no self-loops); it
      is zero exactly for a node no edge touches, and at most the number of
      edges. */
  function Degree(g: GraphValue, n: nat): (r: nat)
    ensures r == 0 <==> forall e :: e in g.weights ==> e.lo != n && e.hi != n
    ensures r <= |g.weights.Keys|
  {
    EdgesAtBounds(g, n);
    |EdgesAt(g, n)|
  }

  /** The edges with n as an endpoint. */
  function EdgesAt(g: GraphValue, n: nat): set<Edge> {
    set e | e in g.weights && (e.lo == n || e.hi == n)
  }

  lemma EdgesAtBounds(g: GraphValue, n: nat)
    ensures |EdgesAt(g, n)| == 0 <==> forall e :: e in g.weights ==> e.lo != n && e.hi != n
    ensures |EdgesAt(g, n)| <= |g.weights.Keys|
  {
    assert g.weights.Keys == EdgesAt(g, n) + (g.weights.Keys - EdgesAt(g, n));
    if exists e :: e in g.weights && (e.lo == n || e.hi == n) {
      var e :| e in g.weights && (e.lo == n || e.hi == n);
      assert e in EdgesAt(g, n);
    }
  }

  lemma WithEndpointsShape(ns: seq<nat>, u: nat, v: nat)
    ensures forall x :: x in WithEndpoints(ns, u, v) <==> x in ns || x == u || x == v
    ensures WithEndpoints(ns, u, v)[..|ns|] == ns
    ensures forall p :: |ns| <= p < |WithEndpoints(ns, u, v)| ==>
              WithEndpoints(ns, u, v)[p] in {u, v} && WithEndpoints(ns, u, v)[p] !in ns
    ensures Distinct(ns) ==> Distinct(WithEndpoints(ns, u, v))
    ensures u in ns && v in ns ==> WithEndpoints(ns, u, v) == ns
  {
  }

  /** Adding an edge between two distinct ids keeps a graph well formed. */
  lemma AddEdgeWellFormed(g: GraphValue, u: nat, v: nat, w: real)
    requires WellFormed(g) && u != v
    ensures WellFormed(AddEdgeV(g, u, v, w))
  {
    WithEndpointsShape(g.nodes, u, v);
  }

  lemma AddNodeWellFormed(g: GraphValue, n: nat, a: Attr)
    requires WellFormed(g)
    ensures WellFormed(AddNodeV(g, n, a))
  {
  }

  /** Adding a node keeps the attribute keys and the node list in step. */
  lemma AddNodeKeys(g: GraphValue, n: nat, a: Attr)
    requires forall x :: x in g.attrs <==> x in g.nodes
    ensures forall x :: x in AddNodeV(g, n, a).attrs <==> x in AddNodeV(g, n, a).nodes
  {
  }

  /** The graph built by adding, for a = 0 .. p-1 in turn, node a with
      attributes attrs[a] and no edges: how the pipeline loads the detection
      table (one node per row index) and how it lays out the coarsened graph
      (one node per component). */
  function Numbered(attrs: seq<Attr>, p: nat): GraphValue
    requires p <= |attrs|
  {
    if p == 0 then EmptyGraph
    else AddNodeV(Numbered(attrs, p - 1), p - 1, attrs[p - 1])
  }

  /** The first p steps add the ids 0 .. p-1, in order. */
  lemma {:induction false} NumberedNodes(attrs: seq<Attr>, p: nat)
    requires p <= |attrs|
    ensures var h := Numbered(attrs, p);
      |h.nodes| == p && forall q :: 0 <= q < p ==> h.nodes[q] == q
  {
    if p > 0 {
      NumberedNodes(attrs, p - 1);
      var h := Numbered(attrs, p - 1);
      assert p - 1 !in h.nodes by {
        assert forall q :: 0 <= q < |h.nodes| ==> h.nodes[q] < p - 1;
      }
    }
  }

  /** After p steps node q < p carries attrs[q], no other id has attributes,
      and there are no edges. */
  lemma {:induction false} NumberedAttrs(attrs: seq<Attr>, p: nat)
    requires p <= |attrs|
    ensures var h := Numbered(attrs, p);
      && (forall n: nat :: n in h.attrs <==> n < p)
      && (forall q :: 0 <= q < p ==> h.attrs[q] == attrs[q])
      && h.weights == map[]
  {
    if p > 0 {
      NumberedAttrs(attrs, p - 1);
    }
  }

  /** The numbered graph is well formed, every node has attributes, and it
      has no edges. */
  lemma NumberedValue(attrs: seq<Attr>, p: nat)
    requires p <= |attrs|
    ensures var h := Numbered(attrs, p);
      && |h.nodes| == p && (forall q :: 0 <= q < p ==> h.nodes[q] == q)
      && (forall n: nat :: n in h.attrs <==> n < p)
      && (forall q :: 0 <= q < p ==> h.attrs[q] == attrs[q])
      && h.weights == map[] && WellFormed(h) && Attributed(h)
  {
    NumberedNodes(attrs, p);
    NumberedAttrs(attrs, p);
  }

  /** A networkx Graph object, updated in place by the pipeline. */
  class Graph {
    var nodes: seq<nat>
    var attrs: map<nat, Attr>
    var weights: map<Edge, real>

    function Value(): GraphValue
      reads this
    {
      GraphValue(nodes, attrs, weights)
    }

    /** `nx.Graph()` */
    constructor ()
      ensures Value() == EmptyGraph
    {
      nodes, attrs, weights := [], map[], map[];
    }

    method AddNode(n: nat, a: Attr)
      modifies this
      ensures Value() == AddNodeV(old(Value()), n, a)
    {
      if n !in nodes {
        nodes := nodes + [n];
      }
      attrs := attrs[n := a];
    }

    method AddEdge(u: nat, v: nat, w: real)
      modifies this
      ensures Value() == AddEdgeV(old(Value()), u, v, w)
    {
      if u !in nodes {
        nodes := nodes + [u];
      }
      if v !in nodes {
        nodes := nodes + [v];
      }
      weights := weights[E(u, v) := w];
    }

    /** `G.has_edge(u, v)`: the pair is unordered, so the answer does not
        depend on the order of u and v. */
    predicate HasEdge(u: nat, v: nat): (r: bool)
      reads this
      ensures r <==> E(v, u) in weights
    {
      E(u, v) in weights
    }
  }
}
