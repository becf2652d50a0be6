/** Connected components of an undirected graph, as `nx.connected_components`
    yields them to src/generate/increase_radius.py: one list of nodes per
    component, components in the order of their first node. */
module Components {
  import opened Graphs

  /** `G.has_edge(x, y)` */
  predicate Adjacent(g: GraphValue, x: nat, y: nat) {
    E(x, y) in g.weights
  }

  /** A walk through nodes of g along its edges. */
  ghost predicate IsPath(g: GraphValue, ps: seq<nat>) {
    && |ps| > 0
    && (forall k :: 0 <= k < |ps| ==> ps[k] in g.nodes)
    && (forall k :: 0 <= k < |ps| - 1 ==> Adjacent(g, ps[k], ps[k + 1]))
  }

  ghost predicate Reachable(g: GraphValue, u: nat, v: nat) {
    exists ps :: IsPath(g, ps) && ps[0] == u && ps[|ps| - 1] == v
  }

  lemma ReachRefl(g: GraphValue, u: nat)
    requires u in g.nodes
    ensures Reachable(g, u, u)
  {
    assert IsPath(g, [u]);
  }

  lemma ReachStep(g: GraphValue, u: nat, x: nat, y: nat)
    requires Reachable(g, u, x) && Adjacent(g, x, y) && y in g.nodes
    ensures Reachable(g, u, y)
  {
    var ps :| IsPath(g, ps) && ps[0] == u && ps[|ps| - 1] == x;
    var qs := ps + [y];
    assert IsPath(g, qs);
  }

  lemma ReachNodes(g: GraphValue, u: nat, v: nat)
    requires Reachable(g, u, v)
    ensures u in g.nodes && v in g.nodes
  {
    var ps :| IsPath(g, ps) && ps[0] == u && ps[|ps| - 1] == v;
    assert ps[|ps| - 1] in g.nodes;
  }

  function Reverse(ps: seq<nat>): (r: seq<nat>)
    ensures |r| == |ps| && forall k :: 0 <= k < |ps| ==> r[k] == ps[|ps| - 1 - k]
  {
    if ps == [] then [] else [ps[|ps| - 1]] + Reverse(ps[..|ps| - 1])
  }

  lemma ReachSym(g: GraphValue, u: nat, v: nat)
    requires Reachable(g, u, v)
    ensures Reachable(g, v, u)
  {
    var ps :| IsPath(g, ps) && ps[0] == u && ps[|ps| - 1] == v;
    var qs := Reverse(ps);
    forall k | 0 <= k < |qs| - 1
      ensures Adjacent(g, qs[k], qs[k + 1])
    {
      var m := |ps| - 2 - k;
      assert Adjacent(g, ps[m], ps[m + 1]);
    }
    assert IsPath(g, qs);
  }

  lemma ReachTrans(g: GraphValue, u: nat, v: nat, w: nat)
    requires Reachable(g, u, v) && Reachable(g, v, w)
    ensures Reachable(g, u, w)
  {
    var ps :| IsPath(g, ps) && ps[0] == u && ps[|ps| - 1] == v;
    var qs :| IsPath(g, qs) && qs[0] == v && qs[|qs| - 1] == w;
    var rs := ps + qs[1..];
    forall k | 0 <= k < |rs| - 1
      ensures Adjacent(g, rs[k], rs[k + 1])
    {
      if k < |ps| - 1 {
        assert rs[k] == ps[k] && rs[k + 1] == ps[k + 1];
      } else {
        var m := k - |ps| + 1;
        assert rs[k] == qs[m] && rs[k + 1] == qs[m + 1];
      }
    }
    assert IsPath(g, rs);
  }

  /** Without edges a node reaches only itself. */
  lemma ReachEdgeFree(g: GraphValue, u: nat, v: nat)
    requires g.weights == map[] && Reachable(g, u, v)
    ensures u == v
  {
    var ps :| IsPath(g, ps) && ps[0] == u && ps[|ps| - 1] == v;
    assert |ps| > 1 ==> Adjacent(g, ps[0], ps[1]);
  }

  /** The components listed one after the other. */
  function Flatten(cs: seq<seq<nat>>): seq<nat> {
    if cs == [] then [] else Flatten(cs[..|cs| - 1]) + cs[|cs| - 1]
  }

  lemma {:induction false} FlattenMember(cs: seq<seq<nat>>)
    ensures forall x :: x in Flatten(cs) <==> exists a :: 0 <= a < |cs| && x in cs[a]
    decreases |cs|
  {
    if cs != [] {
      var init := cs[..|cs| - 1];
      FlattenMember(init);
      forall x | x in Flatten(cs)
        ensures exists a :: 0 <= a < |cs| && x in cs[a]
      {
        if x in Flatten(init) {
          var a :| 0 <= a < |init| && x in init[a];
          assert cs[a] == init[a];
        } else {
          assert x in cs[|cs| - 1];
        }
      }
      forall x, a | 0 <= a < |cs| && x in cs[a]
        ensures x in Flatten(cs)
      {
        if a < |cs| - 1 {
          assert init[a] == cs[a];
        }
      }
    }
  }

  lemma {:induction false} FlattenLength(cs: seq<seq<nat>>)
    requires forall a :: 0 <= a < |cs| ==> |cs[a]| == 1
    ensures |Flatten(cs)| == |cs|
    decreases |cs|
  {
    if cs != [] {
      FlattenLength(cs[..|cs| - 1]);
    }
  }

  /** `comps` lists the connected components of g: each is a non-empty list
      without repetitions of exactly the nodes its first node reaches, and
      together they list every node of g exactly once. */
  ghost predicate IsComponents(g: GraphValue, comps: seq<seq<nat>>) {
    && Found(g, comps)
    && (forall x :: x in Flatten(comps) <==> x in g.nodes)
  }

  /** `comps` lists some of the components of g. */
  ghost predicate Found(g: GraphValue, comps: seq<seq<nat>>) {
    && (forall a :: 0 <= a < |comps| ==> comps[a] != [] && Distinct(comps[a]))
    && (forall a, x :: 0 <= a < |comps| ==> (x in comps[a] <==> Reachable(g, comps[a][0], x)))
    && Distinct(Flatten(comps))
  }

  /** A list without repetitions holds each of its elements once. */
  lemma {:induction false} DistinctCount(s: seq<nat>, x: nat)
    requires Distinct(s)
    ensures multiset(s)[x] == if x in s then 1 else 0
    decreases |s|
  {
    if s != [] {
      var init := s[..|s| - 1];
      assert s == init + [s[|s| - 1]];
      DistinctCount(init, x);
    }
  }

  lemma DistinctSameMultiset(a: seq<nat>, b: seq<nat>)
    requires Distinct(a) && Distinct(b) && forall x :: x in a <==> x in b
    ensures multiset(a) == multiset(b)
  {
    forall x
      ensures multiset(a)[x] == multiset(b)[x]
    {
      DistinctCount(a, x);
      DistinctCount(b, x);
    }
  }

  /** A list without repetitions drawn from `b` is no longer than `b`. */
  lemma DistinctSubsetLength(a: seq<nat>, b: seq<nat>)
    requires Distinct(a) && forall x :: x in a ==> x in b
    ensures |a| <= |b|
  {
    assert multiset(a) <= multiset(b) by {
      forall x
        ensures multiset(a)[x] <= multiset(b)[x]
      {
        DistinctCount(a, x);
        if x in a {
          assert x in multiset(b);
        }
      }
    }
    assert |multiset(a)| <= |multiset(b)| by {
      var d := multiset(b) - multiset(a);
      assert multiset(b) == multiset(a) + d;
    }
  }

  /** The components partition the nodes: each node is listed once. */
  lemma ComponentsPartition(g: GraphValue, comps: seq<seq<nat>>)
    requires WellFormed(g) && IsComponents(g, comps)
    ensures multiset(Flatten(comps)) == multiset(g.nodes)
  {
    DistinctSameMultiset(Flatten(comps), g.nodes);
  }

  /** In a graph without edges every node is a component of its own. */
  lemma ComponentsEdgeFree(g: GraphValue, comps: seq<seq<nat>>)
    requires WellFormed(g) && g.weights == map[] && IsComponents(g, comps)
    ensures |comps| == |g.nodes|
    ensures forall a :: 0 <= a < |comps| ==> comps[a] == [comps[a][0]]
  {
    forall a | 0 <= a < |comps|
      ensures comps[a] == [comps[a][0]]
    {
      var c := comps[a];
      ReachRefl(g, c[0]) by {
        assert c[0] in Flatten(comps) by { FlattenMember(comps); }
      }
      forall x | x in c
        ensures x == c[0]
      {
        ReachEdgeFree(g, c[0], x);
      }
      DistinctSubsetLength(c, [c[0]]);
    }
    FlattenLength(comps);
    ComponentsPartition(g, comps);
    assert |multiset(Flatten(comps))| == |multiset(g.nodes)|;
  }

  /** The BFS from `start` that yields one component: the nodes `start`
      reaches, each once, starting with `start`. */
  method Explore(graph: Graph, start: nat) returns (comp: seq<nat>)
    requires WellFormed(graph.Value()) && start in graph.nodes
    ensures Distinct(comp) && |comp| > 0 && comp[0] == start
    ensures forall x :: x in comp <==> Reachable(graph.Value(), start, x)
  {
    ghost var g := graph.Value();
    var nodes, weights := graph.nodes, graph.weights;
    comp := [start];
    ReachRefl(g, start);
    var k := 0;
    while k < |comp|
      invariant 0 <= k <= |comp| && Distinct(comp) && |comp| > 0 && comp[0] == start
      invariant forall x :: x in comp ==> Reachable(g, start, x)
      invariant forall p, y :: 0 <= p < k && y in nodes && Adjacent(g, comp[p], y) ==> y in comp
      decreases |nodes| - k
    {
      forall x | x in comp
        ensures x in nodes
      {
        ReachNodes(g, start, x);
      }
      DistinctSubsetLength(comp, nodes);
      var x := comp[k];
      ghost var before := comp;
      comp := AddNeighbours(graph, start, x, comp);
      forall p, y | 0 <= p < k + 1 && y in nodes && Adjacent(g, comp[p], y)
        ensures y in comp
      {
        assert comp[p] == before[p];
        if p < k {
          assert y in before;
        }
      }
      k := k + 1;
    }
    forall y | Reachable(g, start, y)
      ensures y in comp
    {
      ReachClosed(g, comp, start, y);
    }
  }

  /** One step of the search: every neighbour of x not listed yet is
      appended, in node order. */
  method AddNeighbours(graph: Graph, ghost start: nat, x: nat, comp: seq<nat>) returns (r: seq<nat>)
    requires WellFormed(graph.Value()) && x in graph.nodes && Reachable(graph.Value(), start, x)
    requires Distinct(comp) && |comp| > 0 && comp[0] == start
    requires forall z :: z in comp ==> Reachable(graph.Value(), start, z)
    ensures |comp| <= |r| && r[..|comp|] == comp && Distinct(r) && r[0] == start
    ensures forall z :: z in r ==> Reachable(graph.Value(), start, z)
    ensures forall y :: y in graph.nodes && Adjacent(graph.Value(), x, y) ==> y in r
  {
    ghost var g := graph.Value();
    var nodes, weights := graph.nodes, graph.weights;
    r := comp;
    for q := 0 to |nodes|
      invariant |comp| <= |r| && r[..|comp|] == comp
      invariant Distinct(r) && r[0] == start
      invariant forall z :: z in r ==> Reachable(g, start, z)
      invariant forall p :: 0 <= p < q && Adjacent(g, x, nodes[p]) ==> nodes[p] in r
    {
      var y := nodes[q];
      if E(x, y) in weights && y !in r {
        ReachStep(g, start, x, y);
        r := r + [y];
      }
    }
    forall y | y in nodes && Adjacent(g, x, y)
      ensures y in r
    {
      var p := NodeIndex(nodes, y);
    }
  }

  /** A set of nodes closed under edges holds every node its members reach. */
  lemma ReachClosed(g: GraphValue, c: seq<nat>, u: nat, v: nat)
    requires u in c && Reachable(g, u, v)
    requires forall p, y :: 0 <= p < |c| && y in g.nodes && Adjacent(g, c[p], y) ==> y in c
    ensures v in c
  {
    var ps :| IsPath(g, ps) && ps[0] == u && ps[|ps| - 1] == v;
    var k := 0;
    while k < |ps| - 1
      invariant 0 <= k < |ps| && ps[k] in c
    {
      var p := NodeIndex(c, ps[k]);
      assert Adjacent(g, c[p], ps[k + 1]);
      k := k + 1;
    }
  }

  /** A node shared by an earlier component and the component of v puts v
      in that earlier component. */
  lemma SharedNode(g: GraphValue, comps: seq<seq<nat>>, v: nat, c: seq<nat>)
    requires forall a :: 0 <= a < |comps| ==> comps[a] != []
    requires forall a, x :: 0 <= a < |comps| ==> (x in comps[a] <==> Reachable(g, comps[a][0], x))
    requires forall x :: x in c ==> Reachable(g, v, x)
    ensures forall a, x :: 0 <= a < |comps| && x in comps[a] && x in c ==> v in comps[a]
  {
    forall x, a | 0 <= a < |comps| && x in comps[a] && x in c
      ensures v in comps[a]
    {
      ReachSym(g, v, x);
      ReachTrans(g, comps[a][0], x, v);
    }
  }

  /** The component of a node outside every earlier component extends the
      list of components found. */
  lemma FoundExtend(g: GraphValue, comps: seq<seq<nat>>, v: nat, c: seq<nat>)
    requires Found(g, comps) && v !in Flatten(comps)
    requires Distinct(c) && |c| > 0 && c[0] == v && forall x :: x in c <==> Reachable(g, v, x)
    ensures Found(g, comps + [c]) && Flatten(comps + [c]) == Flatten(comps) + c
  {
    var cs := comps + [c];
    assert cs[..|comps|] == comps;
    assert Flatten(cs) == Flatten(comps) + c;
    assert Distinct(Flatten(comps) + c) by {
      SharedNode(g, comps, v, c);
      FlattenMember(comps);
      DistinctConcat(Flatten(comps), c);
    }
    assert forall a :: 0 <= a < |cs| ==> cs[a] != [] && Distinct(cs[a]);
    forall a, x | 0 <= a < |cs|
      ensures x in cs[a] <==> Reachable(g, cs[a][0], x)
    {
      if a < |comps| {
        assert cs[a] == comps[a];
      }
    }
  }

  lemma DistinctConcat(a: seq<nat>, b: seq<nat>)
    requires Distinct(a) && Distinct(b) && forall x :: x in a ==> x !in b
    ensures Distinct(a + b)
  {
    forall p, q | 0 <= p < q < |a + b|
      ensures (a + b)[p] != (a + b)[q]
    {
      if p < |a| && q >= |a| {
        assert (a + b)[p] in a && (a + b)[q] in b;
      }
    }
  }

  /** `nx.connected_components(G)`: components in the order of their first
      node, each found by a search from that node. */
  method ConnectedComponents(graph: Graph) returns (comps: seq<seq<nat>>)
    requires WellFormed(graph.Value())
    ensures IsComponents(graph.Value(), comps)
  {
    ghost var g := graph.Value();
    var nodes := graph.nodes;
    comps := [];
    var seen: set<nat> := {};
    for p := 0 to |nodes|
      invariant Found(g, comps) && Seen(g, comps, seen, p)
    {
      var v := nodes[p];
      if v !in seen {
        var c := Explore(graph, v);
        NewComponent(g, comps, seen, p, c);
        comps := comps + [c];
        seen := seen + Values(c);
      } else {
        SeenBefore(g, comps, seen, p);
      }
    }
    AllFound(g, comps, seen);
  }

  /** The seen set of the search loop after the nodes at positions before
      p: the nodes of the components found so far, all nodes of g, and
      including every node visited. */
  ghost predicate Seen(g: GraphValue, comps: seq<seq<nat>>, seen: set<nat>, p: nat) {
    && (forall x :: x in seen <==> x in Flatten(comps))
    && (forall x :: x in seen ==> x in g.nodes)
    && (forall r :: 0 <= r < p && r < |g.nodes| ==> g.nodes[r] in seen)
  }

  /** The component found from a node not seen yet extends the list, and
      the seen set grows by its nodes. */
  lemma NewComponent(g: GraphValue, comps: seq<seq<nat>>, seen: set<nat>, p: nat, c: seq<nat>)
    requires Found(g, comps) && Seen(g, comps, seen, p) && p < |g.nodes| && g.nodes[p] !in seen
    requires Distinct(c) && |c| > 0 && c[0] == g.nodes[p]
    requires forall x :: x in c <==> Reachable(g, g.nodes[p], x)
    ensures Found(g, comps + [c]) && Seen(g, comps + [c], seen + Values(c), p + 1)
  {
    var v := g.nodes[p];
    FoundExtend(g, comps, v, c);
    forall x | x in c
      ensures x in g.nodes
    {
      ReachNodes(g, v, x);
    }
    assert v in Values(c);
  }

  /** A node already seen leaves the list and the seen set as they are. */
  lemma SeenBefore(g: GraphValue, comps: seq<seq<nat>>, seen: set<nat>, p: nat)
    requires Seen(g, comps, seen, p) && p < |g.nodes| && g.nodes[p] in seen
    ensures Seen(g, comps, seen, p + 1)
  {
  }

  /** Once every node is seen, the list holds all the components. */
  lemma AllFound(g: GraphValue, comps: seq<seq<nat>>, seen: set<nat>)
    requires Found(g, comps) && Seen(g, comps, seen, |g.nodes|)
    ensures IsComponents(g, comps)
  {
    forall x | x in g.nodes
      ensures x in Flatten(comps)
    {
      var r :| 0 <= r < |g.nodes| && g.nodes[r] == x;
    }
  }
}
