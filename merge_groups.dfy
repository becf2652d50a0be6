/** The grouping pass of `merge_close_nodes` (src/generate/gen_graph.py): the
    nested pair loop that fills the dictionary `merged_nodes` and the set
    `nodes_to_merge`. It is not a union-find: which group a close pair joins
    depends on the order in which pairs and groups are visited, and a node can
    end up in several groups. */
module MergeGroups {
  import opened Graphs

  /** `merged_nodes` (its keys in insertion order, as a Python dict keeps
      them, and the member list of each key) and `nodes_to_merge`. */
  datatype Groups = Groups(keys: seq<nat>, members: map<nat, seq<nat>>, merged: set<nat>)

  const NoGroups := Groups([], map[], {})

  /** The key order lists each key of the dictionary once. */
  ghost predicate KeysAgree(s: Groups) {
    Distinct(s.keys) && forall k :: k in s.members <==> k in s.keys
  }

  /** The test the loop over `merged_nodes.items()` applies to a group:
      exactly one node of the pair is already in it. */
  predicate Fires(ms: seq<nat>, u: nat, v: nat) {
    (u in ms && v !in ms) || (u !in ms && v in ms)
  }

  /** The position, from k on in key order, of the first group on which the
      test fires: the group the loop breaks on, if any. */
  function FirstFiring(s: Groups, u: nat, v: nat, k: nat): (r: Option<nat>)
    requires KeysAgree(s) && k <= |s.keys|
    ensures r.Some? ==> k <= r.value < |s.keys| && Fires(s.members[s.keys[r.value]], u, v)
    ensures forall k' :: k <= k' < |s.keys| && (r.None? || k' < r.value) ==> !Fires(s.members[s.keys[k']], u, v)
    decreases |s.keys| - k
  {
    if k == |s.keys| then None
    else if Fires(s.members[s.keys[k]], u, v) then Some(k)
    else FirstFiring(s, u, v, k + 1)
  }

  /** What one close pair (u, v) does: the first group holding exactly one of
      the two receives the other, which joins `nodes_to_merge`; when no group
      does (the `else` of the `for`), u keys the group [u, v] and v joins
      `nodes_to_merge`. */
  function Assign(s: Groups, u: nat, v: nat): (r: Groups)
    requires KeysAgree(s)
    ensures KeysAgree(r)
  {
    match FirstFiring(s, u, v, 0)
    case Some(k) =>
      var key := s.keys[k];
      var ms := s.members[key];
      if u in ms then Groups(s.keys, s.members[key := ms + [v]], s.merged + {v})
      else Groups(s.keys, s.members[key := ms + [u]], s.merged + {u})
    case None =>
      Groups(if u in s.members then s.keys else s.keys + [u], s.members[u := [u, v]], s.merged + {v})
  }

  /** One close pair adds u or v (and nothing else) to `nodes_to_merge`,
      creates at most the key u, and changes at most one group: either it
      appends the missing node of the pair to a group that held exactly one of
      them, or it sets the group of u to [u, v]. */
  lemma AssignEffect(s: Groups, u: nat, v: nat)
    requires KeysAgree(s)
    ensures var r := Assign(s, u, v);
      && s.merged <= r.merged && r.merged - s.merged <= {u, v} && (u in r.merged || v in r.merged)
      && s.members.Keys <= r.members.Keys <= s.members.Keys + {u}
      && (forall k :: k in r.members ==>
        || (k in s.members && r.members[k] == s.members[k])
        || (k in s.members && Fires(s.members[k], u, v) &&
            r.members[k] == s.members[k] + [if u in s.members[k] then v else u])
        || (k == u && r.members[k] == [u, v]))
      && (forall k1, k2 :: (k1 in s.members && k2 in s.members &&
        r.members[k1] != s.members[k1] && r.members[k2] != s.members[k2]) ==> k1 == k2)
  {
  }

  /** The loop body for the pair at positions i < j. */
  function PairStep(g: GraphValue, dist: Distance, t: real, s: Groups, i: nat, j: nat): (r: Groups)
    requires Attributed(g) && i < j < |g.nodes| && KeysAgree(s)
    ensures KeysAgree(r)
  {
    if Close(g, dist, t, g.nodes[i], g.nodes[j]) then Assign(s, g.nodes[i], g.nodes[j]) else s
  }

  /** The inner loop of row i after the pairs (i, i+1) .. (i, j-1). */
  function GroupRow(g: GraphValue, dist: Distance, t: real, s: Groups, i: nat, j: nat): (r: Groups)
    requires Attributed(g) && i < |g.nodes| && j <= |g.nodes| && KeysAgree(s)
    ensures KeysAgree(r)
    decreases j
  {
    if j <= i + 1 then s else PairStep(g, dist, t, GroupRow(g, dist, t, s, i, j - 1), i, j - 1)
  }

  /** The outer loop after rows 0 .. i-1. */
  function GroupUpTo(g: GraphValue, dist: Distance, t: real, i: nat): (r: Groups)
    requires Attributed(g) && i <= |g.nodes|
    ensures KeysAgree(r)
  {
    if i == 0 then NoGroups else GroupRow(g, dist, t, GroupUpTo(g, dist, t, i - 1), i - 1, |g.nodes|)
  }

  /** `merged_nodes` and `nodes_to_merge` once the pair loop is over. */
  function Grouping(g: GraphValue, dist: Distance, t: real): Groups
    requires Attributed(g)
  {
    GroupUpTo(g, dist, t, |g.nodes|)
  }

  /** u and v are closer than the threshold, in either order of the arguments. */
  predicate Near(g: GraphValue, dist: Distance, t: real, u: nat, v: nat)
    requires u in g.attrs && v in g.attrs
  {
    Close(g, dist, t, u, v) || Close(g, dist, t, v, u)
  }

  /** The shape of the group keyed k: it starts with k, has at least two
      distinct members, all nodes of the graph; every member after the first is
      in `nodes_to_merge` and is close to some member listed before it. */
  ghost predicate GroupShape(g: GraphValue, dist: Distance, t: real, s: Groups, k: nat)
    requires Attributed(g) && k in s.members
  {
    var ms := s.members[k];
    && |ms| >= 2 && ms[0] == k && Distinct(ms)
    && (forall p :: 0 <= p < |ms| ==> ms[p] in g.nodes)
    && (forall p :: 1 <= p < |ms| ==> ms[p] in s.merged)
    && (forall p :: 1 <= p < |ms| ==> exists q :: 0 <= q < p && Near(g, dist, t, ms[q], ms[p]))
  }

  /** A node of `nodes_to_merge` is a node close to some other node. */
  ghost predicate HasNearNode(g: GraphValue, dist: Distance, t: real, x: nat)
    requires Attributed(g)
  {
    x in g.nodes && exists y :: y in g.nodes && y != x && Near(g, dist, t, x, y)
  }

  /** What holds of the bookkeeping at every point of the pair loop. */
  ghost predicate Core(g: GraphValue, dist: Distance, t: real, s: Groups)
    requires Attributed(g)
  {
    && KeysAgree(s)
    && (forall k :: k in s.members ==> GroupShape(g, dist, t, s, k))
    && (forall x :: x in s.merged ==> HasNearNode(g, dist, t, x))
    && (|g.nodes| > 0 ==> g.nodes[0] !in s.merged)
  }

  /** Every close pair visited before (i, j) has a node in `nodes_to_merge`. */
  ghost predicate Settled(g: GraphValue, dist: Distance, t: real, s: Groups, i: nat, j: nat)
    requires Attributed(g)
  {
    forall p, q :: 0 <= p < q < |g.nodes| && Before(p, q, i, j) && Close(g, dist, t, g.nodes[p], g.nodes[q]) ==>
      g.nodes[p] in s.merged || g.nodes[q] in s.merged
  }

  /** The invariant at the start of row i: no key lies at position i or later. */
  ghost predicate AtRowStart(g: GraphValue, dist: Distance, t: real, s: Groups, i: nat)
    requires Attributed(g) && i <= |g.nodes|
  {
    && Core(g, dist, t, s)
    && (forall k :: k in s.members ==> k in g.nodes[..i])
    && Settled(g, dist, t, s, i, i + 1)
  }

  /** The invariant inside row i before pair (i, j): no key lies after
      position i, and the group keyed by the node at position i (if any) holds
      only nodes at positions before j. */
  ghost predicate InRow(g: GraphValue, dist: Distance, t: real, s: Groups, i: nat, j: nat)
    requires Attributed(g) && i < j <= |g.nodes|
  {
    && Core(g, dist, t, s)
    && (forall k :: k in s.members ==> k in g.nodes[..i + 1])
    && (g.nodes[i] in s.members ==> forall m :: m in s.members[g.nodes[i]] ==> m in g.nodes[..j])
    && Settled(g, dist, t, s, i, j)
  }

  /** In a list without repetitions, an element is not among those before it. */
  lemma NotInPrefix(ns: seq<nat>, j: nat)
    requires Distinct(ns) && j < |ns|
    ensures ns[j] !in ns[..j]
  {
    assert forall p :: 0 <= p < j ==> ns[..j][p] != ns[j];
  }

  /** When no group fires, none of the groups holds exactly one of u and v. */
  lemma NoneFires(s: Groups, u: nat, v: nat)
    requires KeysAgree(s) && FirstFiring(s, u, v, 0).None?
    ensures forall k :: k in s.members ==> !Fires(s.members[k], u, v)
  {
    forall k | k in s.members
      ensures !Fires(s.members[k], u, v)
    {
      var p := NodeIndex(s.keys, k);
    }
  }

  /** Growing `nodes_to_merge` by the nodes of the visited pair (i, j) when
      the pair is close keeps every visited close pair covered. */
  lemma SettledStep(g: GraphValue, dist: Distance, t: real, s: Groups, r: Groups, i: nat, j: nat)
    requires Attributed(g) && i < j < |g.nodes|
    requires Settled(g, dist, t, s, i, j) && s.merged <= r.merged
    requires Close(g, dist, t, g.nodes[i], g.nodes[j]) ==> g.nodes[i] in r.merged || g.nodes[j] in r.merged
    ensures Settled(g, dist, t, r, i, j + 1)
  {
    var next := j + 1;
    forall p, q | 0 <= p < q < |g.nodes| && Before(p, q, i, next) && Close(g, dist, t, g.nodes[p], g.nodes[q])
      ensures g.nodes[p] in r.merged || g.nodes[q] in r.merged
    {
      if !(p == i && q == j) {
        assert Before(p, q, i, j);
      }
    }
  }

  /** Appending x, a node close to the member y, to the group keyed `key`
      keeps every group well shaped. */
  lemma AppendShape(g: GraphValue, dist: Distance, t: real, s: Groups, key: nat, y: nat, x: nat)
    requires Attributed(g) && key in s.members
    requires forall k :: k in s.members ==> GroupShape(g, dist, t, s, k)
    requires y in s.members[key] && x !in s.members[key] && x in g.nodes && y in g.nodes
    requires Near(g, dist, t, y, x)
    ensures forall k :: k in s.members ==>
      GroupShape(g, dist, t, Groups(s.keys, s.members[key := s.members[key] + [x]], s.merged + {x}), k)
  {
    var ms := s.members[key];
    var ms' := ms + [x];
    var r := Groups(s.keys, s.members[key := ms'], s.merged + {x});
    assert GroupShape(g, dist, t, s, key);
    var qy := NodeIndex(ms, y);
    assert GroupShape(g, dist, t, r, key) by {
      forall p | 1 <= p < |ms'|
        ensures exists q :: 0 <= q < p && Near(g, dist, t, ms'[q], ms'[p])
      {
        if p == |ms| {
          assert ms'[qy] == y && ms'[p] == x;
        } else {
          var q :| 0 <= q < p && Near(g, dist, t, ms[q], ms[p]);
          assert ms'[q] == ms[q] && ms'[p] == ms[p];
        }
      }
    }
    forall k | k in s.members
      ensures GroupShape(g, dist, t, r, k)
    {
      if k != key {
        ShapeKept(g, dist, t, s, r, k);
      }
    }
  }

  /** Other groups keep their shape when `nodes_to_merge` grows. */
  lemma ShapeKept(g: GraphValue, dist: Distance, t: real, s: Groups, r: Groups, k: nat)
    requires Attributed(g) && k in s.members && k in r.members
    requires r.members[k] == s.members[k] && s.merged <= r.merged
    requires GroupShape(g, dist, t, s, k)
    ensures GroupShape(g, dist, t, r, k)
  {
  }

  /** A close pair handled by an existing group (the `break` branches). */
  lemma {:induction false} AssignFired(g: GraphValue, dist: Distance, t: real, s: Groups, i: nat, j: nat)
    requires WellFormed(g) && Attributed(g) && i < j < |g.nodes|
    requires InRow(g, dist, t, s, i, j)
    requires Close(g, dist, t, g.nodes[i], g.nodes[j])
    requires FirstFiring(s, g.nodes[i], g.nodes[j], 0).Some?
    ensures InRow(g, dist, t, Assign(s, g.nodes[i], g.nodes[j]), i, j + 1)
  {
    var u, v := g.nodes[i], g.nodes[j];
    var key := s.keys[FirstFiring(s, u, v, 0).value];
    var ms := s.members[key];
    assert GroupShape(g, dist, t, s, key);
    if u in ms {
      AppendKeepsRow(g, dist, t, s, i, j, key, u, v);
    } else {
      AppendKeepsRow(g, dist, t, s, i, j, key, v, u);
    }
  }

  /** The `break` branch that appends x to the group keyed `key`, which holds
      its partner y, keeps the row invariant apart from the pairs visited. */
  lemma AppendKeepsRow(g: GraphValue, dist: Distance, t: real, s: Groups, i: nat, j: nat, key: nat, y: nat, x: nat)
    requires WellFormed(g) && Attributed(g) && i < j < |g.nodes|
    requires InRow(g, dist, t, s, i, j)
    requires {x, y} == {g.nodes[i], g.nodes[j]} && Close(g, dist, t, g.nodes[i], g.nodes[j])
    requires key in s.members && y in s.members[key] && x !in s.members[key]
    ensures InRow(g, dist, t, Groups(s.keys, s.members[key := s.members[key] + [x]], s.merged + {x}), i, j + 1)
  {
    var r := Groups(s.keys, s.members[key := s.members[key] + [x]], s.merged + {x});
    assert GroupShape(g, dist, t, s, key);
    assert Near(g, dist, t, y, x);
    FirstNodeNotAppended(g, s, i, j, key, x);
    AppendCore(g, dist, t, s, key, y, x);
    if key == g.nodes[i] {
      RowGroupGrows(g, s.members[key], j, x);
    }
    SettledStep(g, dist, t, s, r, i, j);
  }

  /** Appending x to the group holding its close partner y keeps the
      bookkeeping invariant. */
  lemma AppendCore(g: GraphValue, dist: Distance, t: real, s: Groups, key: nat, y: nat, x: nat)
    requires Attributed(g) && Core(g, dist, t, s)
    requires x in g.nodes && y in g.nodes && x != y && Near(g, dist, t, y, x)
    requires key in s.members && y in s.members[key] && x !in s.members[key]
    requires |g.nodes| > 0 && x != g.nodes[0]
    ensures Core(g, dist, t, Groups(s.keys, s.members[key := s.members[key] + [x]], s.merged + {x}))
  {
    AppendShape(g, dist, t, s, key, y, x);
    assert HasNearNode(g, dist, t, x) by {
      assert Near(g, dist, t, x, y);
    }
  }

  /** The node at position 0 is never appended to a group: v lies after it,
      and u can only be appended to a group keyed before it. */
  lemma FirstNodeNotAppended(g: GraphValue, s: Groups, i: nat, j: nat, key: nat, x: nat)
    requires Distinct(g.nodes) && i < j < |g.nodes|
    requires key in s.members && key in g.nodes[..i + 1] && |s.members[key]| > 0 && s.members[key][0] == key
    requires x == g.nodes[j] || (x == g.nodes[i] && x !in s.members[key])
    ensures x != g.nodes[0]
  {
  }

  /** The group keyed by the row's own node only ever receives v. */
  lemma RowGroupGrows(g: GraphValue, ms: seq<nat>, j: nat, x: nat)
    requires j < |g.nodes| && x == g.nodes[j]
    requires forall m :: m in ms ==> m in g.nodes[..j]
    ensures forall m :: m in ms + [x] ==> m in g.nodes[..j + 1]
  {
    assert g.nodes[..j + 1] == g.nodes[..j] + [x];
  }

  /** A close pair no group takes (the `else` of the `for`): u is not yet a
      key, so the new group [u, v] does not replace an existing one. */
  lemma {:induction false} AssignElse(g: GraphValue, dist: Distance, t: real, s: Groups, i: nat, j: nat)
    requires WellFormed(g) && Attributed(g) && i < j < |g.nodes|
    requires InRow(g, dist, t, s, i, j)
    requires Close(g, dist, t, g.nodes[i], g.nodes[j])
    requires FirstFiring(s, g.nodes[i], g.nodes[j], 0).None?
    ensures g.nodes[i] !in s.members
    ensures InRow(g, dist, t, Assign(s, g.nodes[i], g.nodes[j]), i, j + 1)
  {
    var u, v := g.nodes[i], g.nodes[j];
    NotInPrefix(g.nodes, j);
    NoneFires(s, u, v);
    var r := Assign(s, u, v);
    assert r == Groups(s.keys + [u], s.members[u := [u, v]], s.merged + {v});
    NewGroupCore(g, dist, t, s, u, v);
    NewGroupPositions(g, i, j);
    SettledStep(g, dist, t, s, r, i, j);
  }

  /** The new group [u, v] of a close pair keeps the bookkeeping invariant. */
  lemma NewGroupCore(g: GraphValue, dist: Distance, t: real, s: Groups, u: nat, v: nat)
    requires Attributed(g) && Core(g, dist, t, s) && u !in s.members
    requires u in g.nodes && v in g.nodes && u != v && Close(g, dist, t, u, v)
    requires |g.nodes| > 0 && v != g.nodes[0]
    ensures Core(g, dist, t, Groups(s.keys + [u], s.members[u := [u, v]], s.merged + {v}))
  {
    var r := Groups(s.keys + [u], s.members[u := [u, v]], s.merged + {v});
    assert GroupShape(g, dist, t, r, u) by {
      assert Near(g, dist, t, [u, v][0], [u, v][1]);
    }
    forall k' | k' in r.members
      ensures GroupShape(g, dist, t, r, k')
    {
      if k' != u {
        ShapeKept(g, dist, t, s, r, k');
      }
    }
    assert HasNearNode(g, dist, t, v) by {
      assert u in g.nodes && u != v && Near(g, dist, t, v, u);
    }
  }

  /** The new group is keyed by the row's node and holds nodes up to j. */
  lemma NewGroupPositions(g: GraphValue, i: nat, j: nat)
    requires i < j < |g.nodes|
    ensures g.nodes[i] in g.nodes[..i + 1]
    ensures forall m :: m in [g.nodes[i], g.nodes[j]] ==> m in g.nodes[..j + 1]
  {
    assert g.nodes[..i + 1][i] == g.nodes[i];
    assert g.nodes[..j + 1][i] == g.nodes[i] && g.nodes[..j + 1][j] == g.nodes[j];
  }

  lemma {:induction false} PairStepInRow(g: GraphValue, dist: Distance, t: real, s: Groups, i: nat, j: nat)
    requires WellFormed(g) && Attributed(g) && i < j < |g.nodes|
    requires InRow(g, dist, t, s, i, j)
    ensures InRow(g, dist, t, PairStep(g, dist, t, s, i, j), i, j + 1)
  {
    var u, v := g.nodes[i], g.nodes[j];
    if Close(g, dist, t, u, v) {
      if FirstFiring(s, u, v, 0).Some? {
        AssignFired(g, dist, t, s, i, j);
      } else {
        AssignElse(g, dist, t, s, i, j);
      }
    } else {
      SettledStep(g, dist, t, s, s, i, j);
      assert g.nodes[..j] <= g.nodes[..j + 1];
    }
  }

  /** A row starts with no group keyed by its own node. */
  lemma StartInRow(g: GraphValue, dist: Distance, t: real, s: Groups, i: nat)
    requires WellFormed(g) && Attributed(g) && i < |g.nodes|
    requires AtRowStart(g, dist, t, s, i)
    ensures InRow(g, dist, t, s, i, i + 1)
  {
    NotInPrefix(g.nodes, i);
    assert g.nodes[i] !in s.members;
    forall k | k in s.members
      ensures k in g.nodes[..i + 1]
    {
      assert k in g.nodes[..i];
      var p := NodeIndex(g.nodes[..i], k);
      assert g.nodes[..i + 1][p] == k;
    }
  }

  lemma {:induction false} GroupRowInRow(g: GraphValue, dist: Distance, t: real, s: Groups, i: nat, j: nat)
    requires WellFormed(g) && Attributed(g) && i < j <= |g.nodes|
    requires AtRowStart(g, dist, t, s, i)
    ensures InRow(g, dist, t, GroupRow(g, dist, t, s, i, j), i, j)
    decreases j
  {
    if j == i + 1 {
      StartInRow(g, dist, t, s, i);
    } else {
      var r := GroupRow(g, dist, t, s, i, j - 1);
      GroupRowInRow(g, dist, t, s, i, j - 1);
      PairStepInRow(g, dist, t, r, i, j - 1);
      assert GroupRow(g, dist, t, s, i, j) == PairStep(g, dist, t, r, i, j - 1);
    }
  }

  lemma {:induction false} GroupUpToStart(g: GraphValue, dist: Distance, t: real, i: nat)
    requires WellFormed(g) && Attributed(g) && i <= |g.nodes|
    ensures AtRowStart(g, dist, t, GroupUpTo(g, dist, t, i), i)
  {
    if i > 0 {
      var s := GroupUpTo(g, dist, t, i - 1);
      var n := |g.nodes|;
      GroupUpToStart(g, dist, t, i - 1);
      GroupRowInRow(g, dist, t, s, i - 1, n);
      var r := GroupUpTo(g, dist, t, i);
      assert InRow(g, dist, t, r, i - 1, n);
      var next := i + 1;
      var prev := i - 1;
      assert Settled(g, dist, t, r, i, next) by {
        forall p, q | 0 <= p < q < n && Before(p, q, i, next) && Close(g, dist, t, g.nodes[p], g.nodes[q])
          ensures g.nodes[p] in r.merged || g.nodes[q] in r.merged
        {
          assert Before(p, q, prev, n);
        }
      }
    }
  }

  /** Everything the pair loop guarantees once it is over. */
  lemma GroupingFacts(g: GraphValue, dist: Distance, t: real)
    requires WellFormed(g) && Attributed(g)
    ensures Core(g, dist, t, Grouping(g, dist, t))
    ensures forall p, q :: 0 <= p < q < |g.nodes| && Close(g, dist, t, g.nodes[p], g.nodes[q]) ==>
      g.nodes[p] in Grouping(g, dist, t).merged || g.nodes[q] in Grouping(g, dist, t).merged
  {
    var n := |g.nodes|;
    var next := n + 1;
    GroupUpToStart(g, dist, t, n);
    var s := Grouping(g, dist, t);
    forall p, q | 0 <= p < q < n && Close(g, dist, t, g.nodes[p], g.nodes[q])
      ensures g.nodes[p] in s.merged || g.nodes[q] in s.merged
    {
      assert Before(p, q, n, next);
    }
  }

  /** Every node put in `nodes_to_merge` is a node of the graph that lies
      within the threshold of some other node. */
  lemma MergedHaveCloseNeighbour(g: GraphValue, dist: Distance, t: real, x: nat)
    requires WellFormed(g) && Attributed(g) && x in Grouping(g, dist, t).merged
    ensures x in g.nodes
    ensures exists y :: y in g.nodes && y != x && (Close(g, dist, t, x, y) || Close(g, dist, t, y, x))
  {
    GroupingFacts(g, dist, t);
    assert HasNearNode(g, dist, t, x);
  }

  /** Every group starts with its key, lists distinct nodes of the graph, and
      grows as a chain: each later member is within the threshold of a member
      listed before it, and is in `nodes_to_merge`. */
  lemma GroupsAreChains(g: GraphValue, dist: Distance, t: real, k: nat)
    requires WellFormed(g) && Attributed(g) && k in Grouping(g, dist, t).members
    ensures var ms := Grouping(g, dist, t).members[k];
      && |ms| >= 2 && ms[0] == k && Distinct(ms)
      && (forall p :: 0 <= p < |ms| ==> ms[p] in g.nodes)
      && (forall p :: 1 <= p < |ms| ==> ms[p] in Grouping(g, dist, t).merged)
      && (forall p :: 1 <= p < |ms| ==> exists q :: 0 <= q < p && Near(g, dist, t, ms[q], ms[p]))
  {
    GroupingFacts(g, dist, t);
    assert GroupShape(g, dist, t, Grouping(g, dist, t), k);
  }

  /** After the pair loop no two nodes outside `nodes_to_merge` are within the
      threshold of each other (for a symmetric distance; in general, in the
      order in which the loop measures them). */
  lemma SurvivorsFarApart(g: GraphValue, dist: Distance, t: real, p: nat, q: nat)
    requires WellFormed(g) && Attributed(g) && p < |g.nodes| && q < |g.nodes| && p != q
    requires g.nodes[p] !in Grouping(g, dist, t).merged && g.nodes[q] !in Grouping(g, dist, t).merged
    ensures p < q ==> !Close(g, dist, t, g.nodes[p], g.nodes[q])
    ensures IsDistance(dist) ==> !Close(g, dist, t, g.nodes[p], g.nodes[q])
  {
    GroupingFacts(g, dist, t);
    if q < p {
      assert !Close(g, dist, t, g.nodes[q], g.nodes[p]);
    }
  }

  /** The first node is never merged away. */
  lemma FirstNodeSurvives(g: GraphValue, dist: Distance, t: real)
    requires WellFormed(g) && Attributed(g) && |g.nodes| > 0
    ensures g.nodes[0] !in Grouping(g, dist, t).merged
  {
    GroupingFacts(g, dist, t);
  }

  /** When no two nodes are within the threshold, `merged_nodes` and
      `nodes_to_merge` stay empty. */
  lemma NoCloseNoGroups(g: GraphValue, dist: Distance, t: real)
    requires WellFormed(g) && Attributed(g)
    requires forall x, y :: x in g.nodes && y in g.nodes && x != y ==> !Close(g, dist, t, x, y)
    ensures Grouping(g, dist, t).members == map[] && Grouping(g, dist, t).merged == {}
  {
    GroupingFacts(g, dist, t);
    var s := Grouping(g, dist, t);
    assert s.merged == {};
    NothingMergedNoGroups(g, dist, t, s);
  }

  lemma NothingMergedNoGroups(g: GraphValue, dist: Distance, t: real, s: Groups)
    requires Attributed(g) && Core(g, dist, t, s) && s.merged == {}
    ensures s.members == map[]
  {
    GroupsHaveTails(g, dist, t, s);
  }

  /** Every group's second member is in `nodes_to_merge`. */
  lemma GroupsHaveTails(g: GraphValue, dist: Distance, t: real, s: Groups)
    requires Attributed(g) && Core(g, dist, t, s)
    ensures forall k :: k in s.members ==> |s.members[k]| >= 2 && s.members[k][1] in s.merged
  {
    forall k | k in s.members
      ensures |s.members[k]| >= 2 && s.members[k][1] in s.merged
    {
      GroupHasTail(g, dist, t, s, k);
    }
  }

  lemma GroupHasTail(g: GraphValue, dist: Distance, t: real, s: Groups, k: nat)
    requires Attributed(g) && k in s.members && GroupShape(g, dist, t, s, k)
    ensures |s.members[k]| >= 2 && s.members[k][1] in s.merged
  {
  }

  /** The `for key, values in merged_nodes.items()` loop with its `else`, for
      one close pair (u, v). */
  method JoinGroup(s: Groups, u: nat, v: nat) returns (r: Groups)
    requires KeysAgree(s)
    ensures r == Assign(s, u, v)
  {
    var keys: seq<nat>, members: map<nat, seq<nat>>, merged: set<nat> := s.keys, s.members, s.merged;
    var fired := false;
    var k := 0;
    while k < |keys| && !fired
      invariant 0 <= k <= |keys| && keys == s.keys
      invariant !fired ==> members == s.members && merged == s.merged
      invariant !fired ==> FirstFiring(s, u, v, 0) == FirstFiring(s, u, v, k)
      invariant fired ==> Groups(keys, members, merged) == Assign(s, u, v)
    {
      var values := members[keys[k]];
      if u in values && v !in values {
        members := members[keys[k] := values + [v]];
        merged := merged + {v};
        fired := true;
      } else if u !in values && v in values {
        members := members[keys[k] := values + [u]];
        merged := merged + {u};
        fired := true;
      }
      k := k + 1;
    }
    if !fired {
      if u !in members {
        keys := keys + [u];
      }
      members := members[u := [u, v]];
      merged := merged + {v};
    }
    r := Groups(keys, members, merged);
  }

  /** The inner loop of `merge_close_nodes` for row i: the pairs (i, j),
      j > i, in turn. */
  method GroupRowPairs(g: GraphValue, dist: Distance, t: real, s: Groups, i: nat) returns (r: Groups)
    requires Attributed(g) && i < |g.nodes| && KeysAgree(s)
    ensures r == GroupRow(g, dist, t, s, i, |g.nodes|)
  {
    r := s;
    for j := i + 1 to |g.nodes|
      invariant r == GroupRow(g, dist, t, s, i, j)
    {
      var u, v := g.nodes[i], g.nodes[j];
      if dist(g.attrs[u].Pos(), g.attrs[v].Pos()) < t {
        r := JoinGroup(r, u, v);
      }
    }
  }

  /** `merged_nodes` and `nodes_to_merge`, as the nested loop of
      `merge_close_nodes` fills them. */
  method GroupCloseNodes(graph: Graph, dist: Distance, t: real) returns (s: Groups)
    requires Attributed(graph.Value())
    ensures s == Grouping(graph.Value(), dist, t)
  {
    var g := graph.Value();
    s := NoGroups;
    for i := 0 to |g.nodes|
      invariant s == GroupUpTo(g, dist, t, i)
    {
      s := GroupRowPairs(g, dist, t, s, i);
    }
  }
}
