/** The second half of `merge_close_nodes` (src/generate/gen_graph.py): the
    fresh graph H built from the input graph and the groups of the pair loop.
    H gets the nodes outside `nodes_to_merge` (a group key with the aggregate of
    its group, any other node verbatim), then the input edges under a four-way
    case split. */
module MergeGraph {
  import opened Graphs
  import opened Aggregates
  import opened MergeGroups

  /** Every group is a non-empty list of nodes with attributes, so its
      aggregate is defined. */
  ghost predicate GroupsCover(g: GraphValue, s: Groups) {
    forall k :: k in s.members ==> s.members[k] != [] && Covers(g.attrs, s.members[k])
  }

  lemma GroupingCovers(g: GraphValue, dist: Distance, t: real)
    requires WellFormed(g) && Attributed(g)
    ensures GroupsCover(g, Grouping(g, dist, t))
  {
    var s := Grouping(g, dist, t);
    forall k | k in s.members
      ensures s.members[k] != [] && Covers(g.attrs, s.members[k])
    {
      GroupsAreChains(g, dist, t, k);
    }
  }

  /** The nodes of `ns` outside `merged`, in order. */
  function Survivors(ns: seq<nat>, merged: set<nat>): (r: seq<nat>)
    ensures forall x :: x in r <==> x in ns && x !in merged
  {
    if ns == [] then []
    else Survivors(ns[..|ns| - 1], merged) + (if ns[|ns| - 1] in merged then [] else [ns[|ns| - 1]])
  }

  lemma SurvivorsStep(ns: seq<nat>, merged: set<nat>, p: nat)
    requires 0 < p <= |ns|
    ensures Survivors(ns[..p], merged)
         == Survivors(ns[..p - 1], merged) + (if ns[p - 1] in merged then [] else [ns[p - 1]])
  {
    assert ns[..p][..p - 1] == ns[..p - 1];
  }

  lemma {:induction false} SurvivorsDistinct(ns: seq<nat>, merged: set<nat>)
    requires Distinct(ns)
    ensures Distinct(Survivors(ns, merged))
    decreases |ns|
  {
    if ns != [] {
      SurvivorsDistinct(ns[..|ns| - 1], merged);
    }
  }

  /** The attributes a surviving node gets in H: the aggregate of its group
      when it keys one, its own attributes otherwise. */
  function NewAttr(g: GraphValue, s: Groups, n: nat): Attr
    requires n in g.attrs && GroupsCover(g, s)
  {
    if n in s.members then Aggregate(g.attrs, s.members[n]) else g.attrs[n]
  }

  /** The attributes each input node would get in H. */
  function NewAttrs(g: GraphValue, s: Groups): (r: map<nat, Attr>)
    requires GroupsCover(g, s)
    ensures forall n :: n in r <==> n in g.attrs
  {
    map n | n in g.attrs :: NewAttr(g, s, n)
  }

  /** A loop over the node list ns that adds each node outside `merged`
      with its attributes in na, after the first p nodes. */
  function NodeLoop(ns: seq<nat>, merged: set<nat>, na: map<nat, Attr>, p: nat): GraphValue
    requires p <= |ns| && forall x :: x in ns ==> x in na
  {
    if p == 0 then EmptyGraph
    else
      var h := NodeLoop(ns, merged, na, p - 1);
      var n := ns[p - 1];
      if n in merged then h else AddNodeV(h, n, na[n])
  }

  /** The node loop ("Merge step 2") after the first p nodes of the input. */
  function BuildNodes(g: GraphValue, s: Groups, p: nat): GraphValue
    requires Attributed(g) && GroupsCover(g, s) && p <= |g.nodes|
  {
    NodeLoop(g.nodes, s.merged, NewAttrs(g, s), p)
  }

  /** After the node loop H holds exactly the surviving nodes, in input order,
      each with its new attributes, and no edges. */
  lemma BuildNodesValue(g: GraphValue, s: Groups, p: nat)
    requires WellFormed(g) && Attributed(g) && GroupsCover(g, s) && p <= |g.nodes|
    ensures var h := BuildNodes(g, s, p);
      && h.nodes == Survivors(g.nodes[..p], s.merged)
      && h.weights == map[]
      && (forall n :: n in h.attrs <==> n in h.nodes)
      && (forall n :: n in h.attrs ==> h.attrs[n] == NewAttr(g, s, n))
  {
    var na := NewAttrs(g, s);
    NodeLoopList(g.nodes, s.merged, na, p);
    NodeLoopKeys(g.nodes, s.merged, na, p);
    NodeLoopAttrs(g.nodes, s.merged, na, p);
  }

  lemma {:induction false} NodeLoopList(ns: seq<nat>, merged: set<nat>, na: map<nat, Attr>, p: nat)
    requires p <= |ns| && (forall x :: x in ns ==> x in na) && Distinct(ns)
    ensures NodeLoop(ns, merged, na, p).nodes == Survivors(ns[..p], merged)
    ensures NodeLoop(ns, merged, na, p).weights == map[]
  {
    if p > 0 {
      NodeLoopList(ns, merged, na, p - 1);
      SurvivorsStep(ns, merged, p);
      NotInPrefix(ns, p - 1);
    }
  }

  lemma {:induction false} NodeLoopKeys(ns: seq<nat>, merged: set<nat>, na: map<nat, Attr>, p: nat)
    requires p <= |ns| && forall x :: x in ns ==> x in na
    ensures forall n :: n in NodeLoop(ns, merged, na, p).attrs <==> n in NodeLoop(ns, merged, na, p).nodes
  {
    if p > 0 {
      NodeLoopKeys(ns, merged, na, p - 1);
      var n := ns[p - 1];
      if n !in merged {
        AddNodeKeys(NodeLoop(ns, merged, na, p - 1), n, na[n]);
      }
    }
  }

  lemma {:induction false} NodeLoopAttrs(ns: seq<nat>, merged: set<nat>, na: map<nat, Attr>, p: nat)
    requires p <= |ns| && forall x :: x in ns ==> x in na
    ensures forall n :: n in NodeLoop(ns, merged, na, p).attrs ==> n in na && NodeLoop(ns, merged, na, p).attrs[n] == na[n]
  {
    if p > 0 {
      NodeLoopAttrs(ns, merged, na, p - 1);
    }
  }

  /** Cases 2 and 3 of the edge loop, after the first k members of the group:
      for each member o joined to `other` in the input, (u, v) gets the data
      of the edge (o, other). */
  function Relink(g: GraphValue, h: GraphValue, ms: seq<nat>, other: nat, u: nat, v: nat, k: nat): GraphValue
    requires k <= |ms|
    decreases k
  {
    if k == 0 then h
    else
      var h' := Relink(g, h, ms, other, u, v, k - 1);
      var e := E(ms[k - 1], other);
      if e in g.weights then AddEdgeV(h', u, v, g.weights[e]) else h'
  }

  /** Case 4 of the edge loop, after the first k members of u's group. */
  function RelinkBoth(g: GraphValue, h: GraphValue, mu: seq<nat>, mv: seq<nat>, u: nat, v: nat, k: nat): GraphValue
    requires k <= |mu|
    decreases k
  {
    if k == 0 then h else Relink(g, RelinkBoth(g, h, mu, mv, u, v, k - 1), mv, mu[k - 1], u, v, |mv|)
  }

  /** The body of the edge loop for an input edge (u, v). */
  function CopyEdge(g: GraphValue, s: Groups, h: GraphValue, u: nat, v: nat): GraphValue
    requires E(u, v) in g.weights
  {
    if u !in s.merged && v !in s.merged then AddEdgeV(h, u, v, g.weights[E(u, v)])
    else if u in s.members && v !in s.merged then Relink(g, h, s.members[u], v, u, v, |s.members[u]|)
    else if v in s.members && u !in s.merged then Relink(g, h, s.members[v], u, u, v, |s.members[v]|)
    else if u in s.members && v in s.members && u != v then
      RelinkBoth(g, h, s.members[u], s.members[v], u, v, |s.members[u]|)
    else h
  }

  /** The edge loop visits the input edge between the nodes at positions
      i < j, if there is one. */
  function CopyStep(g: GraphValue, s: Groups, h: GraphValue, i: nat, j: nat): GraphValue
    requires i < j < |g.nodes|
  {
    var u, v := g.nodes[i], g.nodes[j];
    if E(u, v) in g.weights then CopyEdge(g, s, h, u, v) else h
  }

  function CopyRow(g: GraphValue, s: Groups, h: GraphValue, i: nat, j: nat): GraphValue
    requires i < |g.nodes| && j <= |g.nodes|
    decreases j
  {
    if j <= i + 1 then h else CopyStep(g, s, CopyRow(g, s, h, i, j - 1), i, j - 1)
  }

  function CopyUpTo(g: GraphValue, s: Groups, h: GraphValue, i: nat): GraphValue
    requires i <= |g.nodes|
  {
    if i == 0 then h else CopyRow(g, s, CopyUpTo(g, s, h, i - 1), i - 1, |g.nodes|)
  }

  /** The graph `merge_close_nodes(graph, t)` returns. */
  function MergeSpec(g: GraphValue, dist: Distance, t: real): GraphValue
    requires WellFormed(g) && Attributed(g)
  {
    var s := Grouping(g, dist, t);
    GroupingCovers(g, dist, t);
    CopyUpTo(g, s, BuildNodes(g, s, |g.nodes|), |g.nodes|)
  }

  /** What the node loop leaves: the survivors, without repetition, each
      with attributes, and no edges. */
  ghost predicate Base(g: GraphValue, s: Groups, b: GraphValue) {
    && Distinct(b.nodes)
    && (forall x :: x in b.nodes <==> x in g.nodes && x !in s.merged)
    && (forall n :: n in b.attrs <==> n in b.nodes)
  }

  /** What the edge loop keeps: the attributes of the node loop; its nodes
      first, followed only by group keys that are themselves in
      `nodes_to_merge`; every weight taken from an input edge; and every edge
      between two survivors an input edge with its own weight. */
  ghost predicate EdgeInv(g: GraphValue, s: Groups, b: GraphValue, h: GraphValue) {
    && h.attrs == b.attrs
    && WellFormed(h)
    && |b.nodes| <= |h.nodes| && h.nodes[..|b.nodes|] == b.nodes
    && (forall p :: |b.nodes| <= p < |h.nodes| ==> h.nodes[p] in s.merged && h.nodes[p] in s.members)
    && (forall x :: x in h.nodes ==> x in g.nodes)
    && (forall e :: e in h.weights ==> h.weights[e] in g.weights.Values)
    && (forall e :: e in h.weights && e.lo !in s.merged && e.hi !in s.merged ==>
          e in g.weights && h.weights[e] == g.weights[e])
  }

  /** Every input edge between two survivors visited before (i, j) is in H. */
  ghost predicate EdgesCopied(g: GraphValue, s: Groups, h: GraphValue, i: nat, j: nat) {
    forall p, q :: (0 <= p < q < |g.nodes| && Before(p, q, i, j) && E(g.nodes[p], g.nodes[q]) in g.weights &&
      g.nodes[p] !in s.merged && g.nodes[q] !in s.merged) ==> E(g.nodes[p], g.nodes[q]) in h.weights
  }

  lemma BaseAfterNodes(g: GraphValue, s: Groups)
    requires WellFormed(g) && Attributed(g) && GroupsCover(g, s)
    ensures Base(g, s, BuildNodes(g, s, |g.nodes|))
    ensures EdgeInv(g, s, BuildNodes(g, s, |g.nodes|), BuildNodes(g, s, |g.nodes|))
  {
    BuildNodesValue(g, s, |g.nodes|);
    assert g.nodes[..|g.nodes|] == g.nodes;
    SurvivorBase(g, s, BuildNodes(g, s, |g.nodes|));
  }

  /** A graph holding exactly the survivors, each with attributes, and no
      edges satisfies both invariants. */
  lemma SurvivorBase(g: GraphValue, s: Groups, b: GraphValue)
    requires WellFormed(g) && b.nodes == Survivors(g.nodes, s.merged) && b.weights == map[]
    requires forall n :: n in b.attrs <==> n in b.nodes
    ensures Base(g, s, b) && EdgeInv(g, s, b, b)
  {
    SurvivorsDistinct(g.nodes, s.merged);
    assert b.nodes[..|b.nodes|] == b.nodes;
  }

  /** The node list of H keeps the survivors first and only appends merged
      group keys, when both endpoints of an added edge are such nodes. */
  lemma EndpointsKeepOrder(gn: seq<nat>, bn: seq<nat>, hn: seq<nat>, merged: set<nat>, keys: set<nat>, u: nat, v: nat)
    requires forall x :: x in bn <==> x in gn && x !in merged
    requires |bn| <= |hn| && hn[..|bn|] == bn
    requires forall p :: |bn| <= p < |hn| ==> hn[p] in merged && hn[p] in keys
    requires u in gn && v in gn && (u in merged ==> u in keys) && (v in merged ==> v in keys)
    ensures var hn' := WithEndpoints(hn, u, v);
      && |bn| <= |hn'| && hn'[..|bn|] == bn
      && (forall p :: |bn| <= p < |hn'| ==> hn'[p] in merged && hn'[p] in keys)
  {
    var hn' := WithEndpoints(hn, u, v);
    WithEndpointsShape(hn, u, v);
    assert hn'[..|bn|] == bn by {
      assert hn'[..|hn|][..|bn|] == hn'[..|bn|];
    }
    forall p | |bn| <= p < |hn'|
      ensures hn'[p] in merged && hn'[p] in keys
    {
      if p >= |hn| {
        var x := hn'[p];
        assert x !in hn;
        assert x !in bn by {
          assert forall q :: 0 <= q < |bn| ==> bn[q] == hn[q];
        }
      } else {
        assert hn'[p] == hn[..|hn|][p];
      }
    }
  }

  /** One `H.add_edge(u, v, w)` of the edge loop keeps the invariant. */
  lemma AddEdgeKeeps(g: GraphValue, s: Groups, b: GraphValue, h: GraphValue, u: nat, v: nat, w: real)
    requires Base(g, s, b) && EdgeInv(g, s, b, h)
    requires u != v && u in g.nodes && v in g.nodes
    requires (u in s.merged ==> u in s.members) && (v in s.merged ==> v in s.members)
    requires w in g.weights.Values
    requires u !in s.merged && v !in s.merged ==> E(u, v) in g.weights && w == g.weights[E(u, v)]
    ensures EdgeInv(g, s, b, AddEdgeV(h, u, v, w))
    ensures h.weights.Keys <= AddEdgeV(h, u, v, w).weights.Keys
  {
    EndpointsKeepOrder(g.nodes, b.nodes, h.nodes, s.merged, s.members.Keys, u, v);
    WithEndpointsShape(h.nodes, u, v);
    AddEdgeWellFormed(h, u, v, w);
  }

  lemma {:induction false} RelinkKeeps(g: GraphValue, s: Groups, b: GraphValue, h: GraphValue, ms: seq<nat>, other: nat, u: nat, v: nat, k: nat)
    requires Base(g, s, b) && EdgeInv(g, s, b, h) && k <= |ms|
    requires u != v && u in g.nodes && v in g.nodes && (u in s.merged || v in s.merged)
    requires (u in s.merged ==> u in s.members) && (v in s.merged ==> v in s.members)
    ensures EdgeInv(g, s, b, Relink(g, h, ms, other, u, v, k))
    ensures h.weights.Keys <= Relink(g, h, ms, other, u, v, k).weights.Keys
    decreases k
  {
    if k > 0 {
      var h' := Relink(g, h, ms, other, u, v, k - 1);
      RelinkKeeps(g, s, b, h, ms, other, u, v, k - 1);
      var e := E(ms[k - 1], other);
      if e in g.weights {
        AddEdgeKeeps(g, s, b, h', u, v, g.weights[e]);
      }
    }
  }

  lemma {:induction false} RelinkBothKeeps(g: GraphValue, s: Groups, b: GraphValue, h: GraphValue, mu: seq<nat>, mv: seq<nat>, u: nat, v: nat, k: nat)
    requires Base(g, s, b) && EdgeInv(g, s, b, h) && k <= |mu|
    requires u != v && u in g.nodes && v in g.nodes && (u in s.merged || v in s.merged)
    requires (u in s.merged ==> u in s.members) && (v in s.merged ==> v in s.members)
    ensures EdgeInv(g, s, b, RelinkBoth(g, h, mu, mv, u, v, k))
    ensures h.weights.Keys <= RelinkBoth(g, h, mu, mv, u, v, k).weights.Keys
    decreases k
  {
    if k > 0 {
      RelinkBothKeeps(g, s, b, h, mu, mv, u, v, k - 1);
      RelinkKeeps(g, s, b, RelinkBoth(g, h, mu, mv, u, v, k - 1), mv, mu[k - 1], u, v, |mv|);
    }
  }

  /** The edge loop body keeps the invariant, never drops an edge of H, and
      copies an edge between two survivors. */
  lemma CopyEdgeKeeps(g: GraphValue, s: Groups, b: GraphValue, h: GraphValue, i: nat, j: nat)
    requires WellFormed(g) && Base(g, s, b) && EdgeInv(g, s, b, h) && i < j < |g.nodes|
    requires E(g.nodes[i], g.nodes[j]) in g.weights
    ensures var r := CopyEdge(g, s, h, g.nodes[i], g.nodes[j]);
      && EdgeInv(g, s, b, r) && h.weights.Keys <= r.weights.Keys
      && (g.nodes[i] !in s.merged && g.nodes[j] !in s.merged ==> E(g.nodes[i], g.nodes[j]) in r.weights)
  {
    var u, v := g.nodes[i], g.nodes[j];
    assert u != v;
    if u !in s.merged && v !in s.merged {
      AddEdgeKeeps(g, s, b, h, u, v, g.weights[E(u, v)]);
    } else if u in s.members && v !in s.merged {
      RelinkKeeps(g, s, b, h, s.members[u], v, u, v, |s.members[u]|);
    } else if v in s.members && u !in s.merged {
      RelinkKeeps(g, s, b, h, s.members[v], u, u, v, |s.members[v]|);
    } else if u in s.members && v in s.members && u != v {
      RelinkBothKeeps(g, s, b, h, s.members[u], s.members[v], u, v, |s.members[u]|);
    }
  }

  /** The edge loop's invariant inside row i, before column j. */
  ghost predicate RowInv(g: GraphValue, s: Groups, b: GraphValue, h: GraphValue, i: nat, j: nat) {
    EdgeInv(g, s, b, h) && EdgesCopied(g, s, h, i, j)
  }

  /** Visiting one more pair of positions keeps the invariant. */
  lemma CopyStepKeeps(g: GraphValue, s: Groups, b: GraphValue, h: GraphValue, i: nat, j: nat)
    requires WellFormed(g) && Base(g, s, b) && RowInv(g, s, b, h, i, j) && i < j < |g.nodes|
    ensures RowInv(g, s, b, CopyStep(g, s, h, i, j), i, j + 1)
  {
    if E(g.nodes[i], g.nodes[j]) in g.weights {
      CopyEdgeKeeps(g, s, b, h, i, j);
    }
    CopiedStep(g, s, h, CopyStep(g, s, h, i, j), i, j);
  }

  lemma CopyRowStep(g: GraphValue, s: Groups, b: GraphValue, h: GraphValue, i: nat, k: nat)
    requires WellFormed(g) && Base(g, s, b) && i < k < |g.nodes|
    requires RowInv(g, s, b, CopyRow(g, s, h, i, k), i, k)
    ensures RowInv(g, s, b, CopyRow(g, s, h, i, k + 1), i, k + 1)
  {
    CopyStepKeeps(g, s, b, CopyRow(g, s, h, i, k), i, k);
  }

  /** The rest of row i, from column k on, keeps the invariant. */
  lemma {:induction false} CopyRowFrom(g: GraphValue, s: Groups, b: GraphValue, h: GraphValue, i: nat, k: nat, j: nat)
    requires WellFormed(g) && Base(g, s, b) && i < k <= j <= |g.nodes|
    requires RowInv(g, s, b, CopyRow(g, s, h, i, k), i, k)
    ensures RowInv(g, s, b, CopyRow(g, s, h, i, j), i, j)
    decreases j - k
  {
    if k < j {
      CopyRowStep(g, s, b, h, i, k);
      CopyRowFrom(g, s, b, h, i, k + 1, j);
    }
  }

  lemma CopyRowStart(g: GraphValue, s: Groups, b: GraphValue, h: GraphValue, i: nat)
    requires i < |g.nodes| && RowInv(g, s, b, h, i, i + 1)
    ensures RowInv(g, s, b, CopyRow(g, s, h, i, i + 1), i, i + 1)
  {
    assert CopyRow(g, s, h, i, i + 1) == h;
  }

  /** A finished row i leaves the invariant at the start of row i + 1. */
  lemma RowDone(g: GraphValue, s: Groups, b: GraphValue, h: GraphValue, i: nat)
    requires i < |g.nodes| && RowInv(g, s, b, h, i, |g.nodes|)
    ensures RowInv(g, s, b, h, i + 1, i + 2)
  {
    var n, next, after := |g.nodes|, i + 1, i + 2;
    forall p, q | 0 <= p < q < n && Before(p, q, next, after) && E(g.nodes[p], g.nodes[q]) in g.weights &&
      g.nodes[p] !in s.merged && g.nodes[q] !in s.merged
      ensures E(g.nodes[p], g.nodes[q]) in h.weights
    {
      assert Before(p, q, i, n);
    }
  }

  lemma CopiedStep(g: GraphValue, s: Groups, h: GraphValue, h': GraphValue, i: nat, j: nat)
    requires i < j < |g.nodes| && EdgesCopied(g, s, h, i, j) && h.weights.Keys <= h'.weights.Keys
    requires E(g.nodes[i], g.nodes[j]) in g.weights && g.nodes[i] !in s.merged && g.nodes[j] !in s.merged ==>
      E(g.nodes[i], g.nodes[j]) in h'.weights
    ensures EdgesCopied(g, s, h', i, j + 1)
  {
    var next := j + 1;
    forall p, q | 0 <= p < q < |g.nodes| && Before(p, q, i, next) && E(g.nodes[p], g.nodes[q]) in g.weights &&
      g.nodes[p] !in s.merged && g.nodes[q] !in s.merged
      ensures E(g.nodes[p], g.nodes[q]) in h'.weights
    {
      if !(p == i && q == j) {
        assert Before(p, q, i, j);
      }
    }
  }

  lemma {:induction false} CopyUpToKeeps(g: GraphValue, s: Groups, b: GraphValue, i: nat)
    requires WellFormed(g) && Base(g, s, b) && EdgeInv(g, s, b, b) && i <= |g.nodes|
    ensures RowInv(g, s, b, CopyUpTo(g, s, b, i), i, i + 1)
  {
    if i > 0 {
      var h := CopyUpTo(g, s, b, i - 1);
      CopyUpToKeeps(g, s, b, i - 1);
      CopyRowStart(g, s, b, h, i - 1);
      CopyRowFrom(g, s, b, h, i - 1, i, |g.nodes|);
      RowDone(g, s, b, CopyRow(g, s, h, i - 1, |g.nodes|), i - 1);
    }
  }

  /** Everything the function guarantees about the graph it returns. */
  lemma MergeFacts(g: GraphValue, dist: Distance, t: real)
    requires WellFormed(g) && Attributed(g)
    ensures GroupsCover(g, Grouping(g, dist, t))
    ensures var s, h := Grouping(g, dist, t), MergeSpec(g, dist, t);
      var b := BuildNodes(g, s, |g.nodes|);
      && Base(g, s, b) && EdgeInv(g, s, b, h)
      && b.nodes == Survivors(g.nodes, s.merged)
      && EdgesCopied(g, s, h, |g.nodes|, |g.nodes| + 1)
  {
    var s := Grouping(g, dist, t);
    GroupingCovers(g, dist, t);
    BaseAfterNodes(g, s);
    BuildNodesValue(g, s, |g.nodes|);
    assert g.nodes[..|g.nodes|] == g.nodes;
    CopyUpToKeeps(g, s, BuildNodes(g, s, |g.nodes|), |g.nodes|);
  }

  lemma SurvivorsOfNone(ns: seq<nat>)
    ensures Survivors(ns, {}) == ns
  {
    if ns != [] {
      SurvivorsOfNone(ns[..|ns| - 1]);
    }
  }

  lemma {:induction false} CopyRowNoEdges(g: GraphValue, s: Groups, h: GraphValue, i: nat, j: nat)
    requires g.weights == map[] && i < |g.nodes| && j <= |g.nodes|
    ensures CopyRow(g, s, h, i, j) == h
    decreases j
  {
    if j > i + 1 {
      CopyRowNoEdges(g, s, h, i, j - 1);
    }
  }

  lemma {:induction false} CopyUpToNoEdges(g: GraphValue, s: Groups, h: GraphValue, i: nat)
    requires g.weights == map[] && i <= |g.nodes|
    ensures CopyUpTo(g, s, h, i) == h
  {
    if i > 0 {
      CopyUpToNoEdges(g, s, h, i - 1);
      CopyRowNoEdges(g, s, h, i - 1, |g.nodes|);
    }
  }

  /** The nodes of the merged graph: every input node outside
      `nodes_to_merge`, first and in input order; after them only group keys
      that are themselves in `nodes_to_merge`, which `H.add_edge` re-creates
      without attributes. The first input node always survives. */
  lemma MergeNodes(g: GraphValue, dist: Distance, t: real)
    requires WellFormed(g) && Attributed(g)
    ensures var s, h := Grouping(g, dist, t), MergeSpec(g, dist, t);
      var surv := Survivors(g.nodes, s.merged);
      && WellFormed(h)
      && |surv| <= |h.nodes| && h.nodes[..|surv|] == surv
      && (forall x :: x in h.nodes ==> x in g.nodes)
      && (forall x :: x in g.nodes && x !in s.merged ==> x in h.nodes)
      && (forall x :: x in h.nodes && x in s.merged ==> x in s.members && x !in h.attrs)
      && (|g.nodes| > 0 ==> g.nodes[0] in h.nodes)
  {
    MergeFacts(g, dist, t);
    var s, h := Grouping(g, dist, t), MergeSpec(g, dist, t);
    var surv := Survivors(g.nodes, s.merged);
    forall x | x in h.nodes && x in s.merged
      ensures x in s.members && x !in h.attrs
    {
      var p := NodeIndex(h.nodes, x);
    }
    forall x | x in g.nodes && x !in s.merged
      ensures x in h.nodes
    {
      var p := NodeIndex(surv, x);
      assert h.nodes[..|surv|][p] == x;
    }
    if |g.nodes| > 0 {
      FirstNodeSurvives(g, dist, t);
    }
  }

  /** The attributes of the merged graph: exactly the surviving input nodes
      have them; a survivor that keys a group carries the mean latitude, the
      mean longitude and the summed FRP of the members listed in its group,
      and any other survivor keeps its own attributes. */
  lemma MergeAttrs(g: GraphValue, dist: Distance, t: real, n: nat)
    requires WellFormed(g) && Attributed(g)
    ensures var s, h := Grouping(g, dist, t), MergeSpec(g, dist, t);
      && (n in h.attrs <==> n in g.nodes && n !in s.merged)
      && (n in h.attrs && n !in s.members ==> h.attrs[n] == g.attrs[n])
      && (n in h.attrs && n in s.members ==>
            var ms := s.members[n];
            && ms != [] && Covers(g.attrs, ms)
            && h.attrs[n].lat == Mean(Lats(g.attrs, ms))
            && h.attrs[n].lon == Mean(Lons(g.attrs, ms))
            && h.attrs[n].frp == Sum(Frps(g.attrs, ms)))
  {
    MergeFacts(g, dist, t);
    var s := Grouping(g, dist, t);
    BuildNodesValue(g, s, |g.nodes|);
    assert g.nodes[..|g.nodes|] == g.nodes;
  }

  /** Between two survivors the edge loop leaves exactly the input edge. */
  lemma SurvivorEdge(g: GraphValue, s: Groups, b: GraphValue, h: GraphValue, u: nat, v: nat)
    requires WellFormed(g) && EdgeInv(g, s, b, h) && EdgesCopied(g, s, h, |g.nodes|, |g.nodes| + 1)
    requires u in g.nodes && v in g.nodes && u != v && u !in s.merged && v !in s.merged
    ensures E(u, v) in h.weights <==> E(u, v) in g.weights
    ensures E(u, v) in h.weights ==> h.weights[E(u, v)] == g.weights[E(u, v)]
  {
    var p := NodeIndex(g.nodes, u);
    var q := NodeIndex(g.nodes, v);
    var n, next := |g.nodes|, |g.nodes| + 1;
    if p < q {
      assert Before(p, q, n, next);
    } else {
      assert Before(q, p, n, next);
      assert E(g.nodes[q], g.nodes[p]) == E(u, v);
    }
  }

  /** The edges of the merged graph: between two survivors, H has exactly
      the input edges, with their weights; every weight in H is the weight of
      some input edge. */
  lemma MergeEdges(g: GraphValue, dist: Distance, t: real, u: nat, v: nat)
    requires WellFormed(g) && Attributed(g)
    requires u in g.nodes && v in g.nodes && u != v
    requires u !in Grouping(g, dist, t).merged && v !in Grouping(g, dist, t).merged
    ensures var h := MergeSpec(g, dist, t);
      && (E(u, v) in h.weights <==> E(u, v) in g.weights)
      && (E(u, v) in h.weights ==> h.weights[E(u, v)] == g.weights[E(u, v)])
      && (forall e :: e in h.weights ==> h.weights[e] in g.weights.Values)
  {
    MergeFacts(g, dist, t);
    var s := Grouping(g, dist, t);
    SurvivorEdge(g, s, BuildNodes(g, s, |g.nodes|), MergeSpec(g, dist, t), u, v);
  }

  /** The node loop copies a graph whose nodes all survive and key no group. */
  lemma BuildNodesIdentity(g: GraphValue, s: Groups, b: GraphValue)
    requires WellFormed(g) && Attributed(g) && GroupsCover(g, s) && s.merged == {} && s.members == map[]
    requires b == BuildNodes(g, s, |g.nodes|)
    ensures b.nodes == g.nodes && b.attrs == g.attrs
  {
    BuildNodesValue(g, s, |g.nodes|);
    assert g.nodes[..|g.nodes|] == g.nodes;
    SurvivorsOfNone(g.nodes);
    KeepAttrs(g, s, b);
  }

  lemma KeepAttrs(g: GraphValue, s: Groups, b: GraphValue)
    requires WellFormed(g) && Attributed(g) && GroupsCover(g, s) && s.members == map[]
    requires b.nodes == g.nodes
    requires forall n :: n in b.attrs <==> n in b.nodes
    requires forall n :: n in b.attrs ==> b.attrs[n] == NewAttr(g, s, n)
    ensures b.attrs == g.attrs
  {
    assert b.attrs.Keys == g.attrs.Keys;
  }

  lemma {:induction false} CopyRowKeepsNodes(g: GraphValue, s: Groups, h: GraphValue, i: nat, j: nat)
    requires s.merged == {} && h.nodes == g.nodes && i < |g.nodes| && j <= |g.nodes|
    ensures CopyRow(g, s, h, i, j).nodes == g.nodes
    decreases j
  {
    if j > i + 1 {
      CopyRowKeepsNodes(g, s, h, i, j - 1);
      WithEndpointsShape(g.nodes, g.nodes[i], g.nodes[j - 1]);
    }
  }

  lemma {:induction false} CopyUpToKeepsNodes(g: GraphValue, s: Groups, h: GraphValue, i: nat)
    requires s.merged == {} && h.nodes == g.nodes && i <= |g.nodes|
    ensures CopyUpTo(g, s, h, i).nodes == g.nodes
  {
    if i > 0 {
      CopyUpToKeepsNodes(g, s, h, i - 1);
      CopyRowKeepsNodes(g, s, CopyUpTo(g, s, h, i - 1), i - 1, |g.nodes|);
    }
  }

  /** The edge loop copies every edge when no node is merged. */
  lemma EdgesIdentity(g: GraphValue, s: Groups, b: GraphValue, h: GraphValue)
    requires WellFormed(g) && s.merged == {}
    requires EdgeInv(g, s, b, h) && EdgesCopied(g, s, h, |g.nodes|, |g.nodes| + 1)
    ensures h.weights.Keys == g.weights.Keys
    ensures forall e :: e in g.weights ==> h.weights[e] == g.weights[e]
  {
    forall e | e in g.weights
      ensures e in h.weights && h.weights[e] == g.weights[e]
    {
      assert E(e.lo, e.hi) == e;
      SurvivorEdge(g, s, b, h, e.lo, e.hi);
    }
  }

  lemma SameGraph(h: GraphValue, g: GraphValue)
    requires h.nodes == g.nodes && h.attrs == g.attrs && h.weights.Keys == g.weights.Keys
    requires forall e :: e in g.weights ==> h.weights[e] == g.weights[e]
    ensures h == g
  {
    assert h.weights == g.weights;
  }

  /** When no two nodes are within the threshold, merging returns a copy of
      the input graph. */
  lemma MergeNothingClose(g: GraphValue, dist: Distance, t: real)
    requires WellFormed(g) && Attributed(g)
    requires forall x, y :: x in g.nodes && y in g.nodes && x != y ==> !Close(g, dist, t, x, y)
    ensures MergeSpec(g, dist, t) == g
  {
    var s := Grouping(g, dist, t);
    NoCloseNoGroups(g, dist, t);
    GroupingCovers(g, dist, t);
    var b := BuildNodes(g, s, |g.nodes|);
    var h := CopyUpTo(g, s, b, |g.nodes|);
    assert h == MergeSpec(g, dist, t);
    BaseAfterNodes(g, s);
    CopyUpToKeeps(g, s, b, |g.nodes|);
    BuildNodesIdentity(g, s, b);
    CopyUpToKeepsNodes(g, s, b, |g.nodes|);
    EdgesIdentity(g, s, b, h);
    SameGraph(h, g);
  }

  /** On a graph without edges, as in the pipeline, merging leaves exactly
      the survivors, every one with attributes, and no edges. */
  lemma MergeEdgeFree(g: GraphValue, dist: Distance, t: real)
    requires WellFormed(g) && Attributed(g) && g.weights == map[]
    ensures var h := MergeSpec(g, dist, t);
      && h.nodes == Survivors(g.nodes, Grouping(g, dist, t).merged)
      && h.weights == map[] && WellFormed(h) && Attributed(h)
  {
    var s := Grouping(g, dist, t);
    GroupingCovers(g, dist, t);
    var b := BuildNodes(g, s, |g.nodes|);
    CopyUpToNoEdges(g, s, b, |g.nodes|);
    BuildNodesValue(g, s, |g.nodes|);
    assert g.nodes[..|g.nodes|] == g.nodes;
    SurvivorsDistinct(g.nodes, s.merged);
  }

  /** The loop over a group's members in cases 2 and 3 of the edge loop. */
  method RelinkInto(graph: Graph, h: Graph, ms: seq<nat>, other: nat, u: nat, v: nat)
    requires h != graph
    modifies h
    ensures h.Value() == Relink(graph.Value(), old(h.Value()), ms, other, u, v, |ms|)
  {
    for k := 0 to |ms|
      invariant h.Value() == Relink(graph.Value(), old(h.Value()), ms, other, u, v, k)
    {
      if graph.HasEdge(ms[k], other) {
        h.AddEdge(u, v, graph.weights[E(ms[k], other)]);
      }
    }
  }

  /** The nested loop over both groups in case 4 of the edge loop. */
  method RelinkBothInto(graph: Graph, h: Graph, mu: seq<nat>, mv: seq<nat>, u: nat, v: nat)
    requires h != graph
    modifies h
    ensures h.Value() == RelinkBoth(graph.Value(), old(h.Value()), mu, mv, u, v, |mu|)
  {
    for k := 0 to |mu|
      invariant h.Value() == RelinkBoth(graph.Value(), old(h.Value()), mu, mv, u, v, k)
    {
      RelinkInto(graph, h, mv, mu[k], u, v);
    }
  }

  /** The body of the edge loop ("Merge step 3") for the input edge (u, v). */
  method CopyEdgeInto(graph: Graph, s: Groups, h: Graph, u: nat, v: nat)
    requires h != graph && E(u, v) in graph.weights
    modifies h
    ensures h.Value() == CopyEdge(graph.Value(), s, old(h.Value()), u, v)
  {
    if u !in s.merged && v !in s.merged {
      h.AddEdge(u, v, graph.weights[E(u, v)]);
    } else if u in s.members && v !in s.merged {
      RelinkInto(graph, h, s.members[u], v, u, v);
    } else if v in s.members && u !in s.merged {
      RelinkInto(graph, h, s.members[v], u, u, v);
    } else if u in s.members && v in s.members && u != v {
      RelinkBothInto(graph, h, s.members[u], s.members[v], u, v);
    }
  }

  /** "Merge step 2": a fresh graph holding the survivors, each group key
      with the aggregate of its group. */
  method AddSurvivors(graph: Graph, s: Groups) returns (h: Graph)
    requires Attributed(graph.Value()) && GroupsCover(graph.Value(), s)
    ensures fresh(h) && h.Value() == BuildNodes(graph.Value(), s, |graph.nodes|)
  {
    ghost var g := graph.Value();
    var nodes, data := graph.nodes, graph.attrs;
    h := new Graph();
    for p := 0 to |nodes|
      invariant fresh(h) && h.Value() == BuildNodes(g, s, p)
    {
      var n := nodes[p];
      if n !in s.merged {
        if n in s.members {
          var lats, longs, frp := AttrLists(data, s.members[n]);
          h.AddNode(n, Attr(Mean(lats), Mean(longs), Sum(frp)));
        } else {
          h.AddNode(n, data[n]);
        }
      }
    }
  }

  /** "Merge step 3": every input edge, visited in node order, added to H
      under the four-way case split. */
  method CopyEdges(graph: Graph, s: Groups, h: Graph)
    requires h != graph && WellFormed(graph.Value())
    modifies h
    ensures h.Value() == CopyUpTo(graph.Value(), s, old(h.Value()), |graph.nodes|)
  {
    ghost var g, b := graph.Value(), h.Value();
    var nodes := graph.nodes;
    for i := 0 to |nodes|
      invariant h.Value() == CopyUpTo(g, s, b, i)
    {
      for j := i + 1 to |nodes|
        invariant h.Value() == CopyRow(g, s, CopyUpTo(g, s, b, i), i, j)
      {
        if graph.HasEdge(nodes[i], nodes[j]) {
          CopyEdgeInto(graph, s, h, nodes[i], nodes[j]);
        }
      }
    }
  }

  /** `merge_close_nodes(graph, t)`: builds and returns a fresh graph and
      leaves the input untouched. */
  method MergeCloseNodes(graph: Graph, dist: Distance, t: real) returns (h: Graph)
    requires WellFormed(graph.Value()) && Attributed(graph.Value())
    ensures fresh(h) && h.Value() == MergeSpec(graph.Value(), dist, t)
  {
    var s := GroupCloseNodes(graph, dist, t);
    GroupingCovers(graph.Value(), dist, t);
    h := AddSurvivors(graph, s);
    CopyEdges(graph, s, h);
  }
}
