/** The degree histogram of src/visualize/degree_analysis.py: the degree of
    every node, a dictionary tally of how many nodes have each degree, the
    tally's items sorted, and the sorted pairs split into two axes. */
module DegreeHistogram {
  import opened Graphs

  /** The degrees of the nodes ns of g, in the order of ns. */
  function DegreesOf(g: GraphValue, ns: seq<nat>): (r: seq<nat>)
    ensures |r| == |ns| && forall p :: 0 <= p < |ns| ==> r[p] == Degree(g, ns[p])
  {
    seq(|ns|, p requires 0 <= p < |ns| => Degree(g, ns[p]))
  }

  /** `[d for _, d in G1.degree()]`: the degrees in node order. */
  function Degrees(g: GraphValue): seq<nat> {
    DegreesOf(g, g.nodes)
  }

  /** The nodes among ns whose degree is d. */
  function OfDegree(g: GraphValue, ns: seq<nat>, d: nat): set<nat> {
    set n | n in ns && Degree(g, n) == d
  }

  /** For distinct nodes, the number of times d occurs in their degree list
      is the number of those nodes whose degree is d. */
  lemma {:induction false} OccurrencesCountNodes(g: GraphValue, ns: seq<nat>, d: nat)
    requires Distinct(ns)
    ensures multiset(DegreesOf(g, ns))[d] == |OfDegree(g, ns, d)|
  {
    if ns != [] {
      var init, last := ns[..|ns| - 1], ns[|ns| - 1];
      OccurrencesCountNodes(g, init, d);
      assert DegreesOf(g, ns) == DegreesOf(g, init) + [Degree(g, last)];
      assert last !in init by {
        forall p | 0 <= p < |init|
          ensures init[p] != last
        {
          assert init[p] == ns[p];
        }
      }
      assert ns == init + [last];
      assert multiset(DegreesOf(g, ns)) == multiset(DegreesOf(g, init)) + multiset{Degree(g, last)};
      OfDegreeStep(g, init, last, d);
    }
  }

  lemma OfDegreeStep(g: GraphValue, init: seq<nat>, last: nat, d: nat)
    requires last !in init
    ensures |OfDegree(g, init + [last], d)|
         == |OfDegree(g, init, d)| + (if Degree(g, last) == d then 1 else 0)
  {
    var before, after := OfDegree(g, init, d), OfDegree(g, init + [last], d);
    if Degree(g, last) == d {
      assert after == before + {last};
    } else {
      assert after == before;
    }
  }

  /** The sum of the counts stored for the keys ks. */
  function CountSum(ks: seq<nat>, counts: map<nat, nat>): nat
    requires forall k :: k in ks ==> k in counts
  {
    if ks == [] then 0 else CountSum(ks[..|ks| - 1], counts) + counts[ks[|ks| - 1]]
  }

  /** Changing the count of a key outside ks leaves their sum alone. */
  lemma {:induction false} CountSumFrame(ks: seq<nat>, counts: map<nat, nat>, d: nat, c: nat)
    requires forall k :: k in ks ==> k in counts
    requires d !in ks
    ensures CountSum(ks, counts[d := c]) == CountSum(ks, counts)
  {
    if ks != [] {
      CountSumFrame(ks[..|ks| - 1], counts, d, c);
    }
  }

  /** Incrementing the count of one of the distinct keys ks adds one to their sum. */
  lemma {:induction false} CountSumBump(ks: seq<nat>, counts: map<nat, nat>, d: nat)
    requires forall k :: k in ks ==> k in counts
    requires Distinct(ks) && d in ks
    ensures CountSum(ks, counts[d := counts[d] + 1]) == CountSum(ks, counts) + 1
  {
    var init := ks[..|ks| - 1];
    if ks[|ks| - 1] == d {
      assert d !in init by {
        forall p | 0 <= p < |init|
          ensures init[p] != d
        {
          assert init[p] == ks[p];
        }
      }
      CountSumFrame(init, counts, d, counts[d] + 1);
    } else {
      assert d in init by {
        var p :| 0 <= p < |ks| && ks[p] == d;
        assert init[p] == d;
      }
      CountSumBump(init, counts, d);
    }
  }

  /** The loop `for d in degrees: degree_counts[d] = degree_counts.get(d, 0) + 1`.
      `order` lists the dictionary's keys in insertion order. Every degree that
      occurs is a key, every key occurs, the count of a key is the number of
      positions holding it (at least one), and the counts add up to the
      number of degrees tallied. */
  method CountDegrees(degrees: seq<nat>) returns (order: seq<nat>, counts: map<nat, nat>)
    ensures Distinct(order) && (forall d :: d in order <==> d in counts)
    ensures forall d :: d in counts <==> d in degrees
    ensures forall d :: d in counts ==> counts[d] == multiset(degrees)[d] && counts[d] >= 1
    ensures CountSum(order, counts) == |degrees|
  {
    order, counts := [], map[];
    for k := 0 to |degrees|
      invariant Distinct(order) && (forall d :: d in order <==> d in counts)
      invariant forall d :: d in counts <==> d in degrees[..k]
      invariant forall d :: d in counts ==> counts[d] == multiset(degrees[..k])[d]
      invariant CountSum(order, counts) == k
    {
      var d := degrees[k];
      assert degrees[..k + 1] == degrees[..k] + [d];
      if d in counts {
        CountSumBump(order, counts, d);
        counts := counts[d := counts[d] + 1];
      } else {
        CountSumFrame(order, counts, d, 1);
        order := order + [d];
        counts := counts[d := 1];
      }
    }
    assert degrees[..|degrees|] == degrees;
  }

  /** `degree_counts.items()`, in the dictionary's insertion order. */
  function Items(order: seq<nat>, counts: map<nat, nat>): (r: seq<(nat, nat)>)
    requires forall d :: d in order ==> d in counts
    ensures |r| == |order| && forall p :: 0 <= p < |r| ==> r[p] == (order[p], counts[order[p]])
  {
    seq(|order|, p requires 0 <= p < |order| => (order[p], counts[order[p]]))
  }

  /** Python's order on pairs: by the first component, then by the second. */
  predicate PairLe(a: (nat, nat), b: (nat, nat)) {
    a.0 < b.0 || (a.0 == b.0 && a.1 <= b.1)
  }

  predicate Sorted(s: seq<(nat, nat)>) {
    forall p, q :: 0 <= p < q < |s| ==> PairLe(s[p], s[q])
  }

  /** No two pairs share a first component. */
  predicate KeysDistinct(s: seq<(nat, nat)>) {
    forall p, q :: 0 <= p < q < |s| ==> s[p].0 != s[q].0
  }

  /** Inserts x in front of the first pair of s it does not exceed. */
  function Insert(x: (nat, nat), s: seq<(nat, nat)>): (r: seq<(nat, nat)>)
    ensures multiset(r) == multiset(s) + multiset{x}
    ensures forall y :: y in r <==> y == x || y in s
  {
    if s == [] then [x]
    else if PairLe(x, s[0]) then [x] + s
    else
      assert s == [s[0]] + s[1..];
      [s[0]] + Insert(x, s[1..])
  }

  lemma {:induction false} InsertSorted(x: (nat, nat), s: seq<(nat, nat)>)
    requires Sorted(s)
    ensures Sorted(Insert(x, s))
  {
    if s != [] && !PairLe(x, s[0]) {
      InsertSorted(x, s[1..]);
      var rest := Insert(x, s[1..]);
      assert forall y :: y in rest ==> PairLe(s[0], y);
    }
  }

  lemma {:induction false} InsertKeysDistinct(x: (nat, nat), s: seq<(nat, nat)>)
    requires KeysDistinct(s) && forall p :: 0 <= p < |s| ==> s[p].0 != x.0
    ensures KeysDistinct(Insert(x, s))
  {
    if s != [] && !PairLe(x, s[0]) {
      InsertKeysDistinct(x, s[1..]);
      var rest := Insert(x, s[1..]);
      assert forall y :: y in rest ==> y.0 != s[0].0;
    }
  }

  /** `sorted(pairs)`: insertion sort, which yields the one ascending
      arrangement of the pairs. */
  function SortPairs(s: seq<(nat, nat)>): (r: seq<(nat, nat)>)
    ensures multiset(r) == multiset(s)
  {
    if s == [] then []
    else
      assert s == [s[0]] + s[1..];
      Insert(s[0], SortPairs(s[1..]))
  }

  /** The sort yields ascending pairs and keeps first components distinct. */
  lemma {:induction false} SortPairsSorted(s: seq<(nat, nat)>)
    ensures Sorted(SortPairs(s))
    ensures KeysDistinct(s) ==> KeysDistinct(SortPairs(s))
  {
    if s != [] {
      var rest := SortPairs(s[1..]);
      SortPairsSorted(s[1..]);
      InsertSorted(s[0], rest);
      if KeysDistinct(s) {
        forall p | 0 <= p < |rest|
          ensures rest[p].0 != s[0].0
        {
          assert rest[p] in multiset(s[1..]);
          var q :| 0 <= q < |s[1..]| && s[1..][q] == rest[p];
          assert s[q + 1] == rest[p];
        }
        InsertKeysDistinct(s[0], rest);
      }
    }
  }

  /** Two ascending arrangements of the same pairs are equal, so the sort's
      result is the one `sorted` returns. */
  lemma {:induction false} SortedUnique(a: seq<(nat, nat)>, b: seq<(nat, nat)>)
    requires Sorted(a) && Sorted(b) && multiset(a) == multiset(b)
    ensures a == b
  {
    if a == [] {
      assert |multiset(b)| == 0;
    } else {
      assert |multiset(b)| == |multiset(a)|;
      SortedHeads(a, b);
      SameTails(a, b);
      SortedUnique(a[1..], b[1..]);
      assert a == [a[0]] + a[1..] && b == [b[0]] + b[1..];
    }
  }

  /** Two non-empty ascending arrangements of the same pairs start alike. */
  lemma SortedHeads(a: seq<(nat, nat)>, b: seq<(nat, nat)>)
    requires Sorted(a) && Sorted(b) && multiset(a) == multiset(b) && a != [] && b != []
    ensures a[0] == b[0]
  {
    assert a[0] in multiset(b) && b[0] in multiset(a);
    var p :| 0 <= p < |b| && b[p] == a[0];
    var q :| 0 <= q < |a| && a[q] == b[0];
    assert PairLe(b[0], a[0]) && PairLe(a[0], b[0]);
  }

  lemma SameTails(a: seq<(nat, nat)>, b: seq<(nat, nat)>)
    requires multiset(a) == multiset(b) && a != [] && b != [] && a[0] == b[0]
    ensures multiset(a[1..]) == multiset(b[1..])
  {
    assert a == [a[0]] + a[1..] && b == [b[0]] + b[1..];
    assert multiset(a[1..]) == multiset(a) - multiset{a[0]};
    assert multiset(b[1..]) == multiset(b) - multiset{b[0]};
  }

  /** `x, y = zip(*pairs)`: raises ValueError on an empty list, since there
      is nothing to unpack into x and y. */
  function Unzip(s: seq<(nat, nat)>): (r: Option<(seq<nat>, seq<nat>)>)
    ensures r.None? <==> s == []
    ensures r.Some? ==> (|r.value.0| == |s| == |r.value.1|
      && forall p :: 0 <= p < |s| ==> (r.value.0[p], r.value.1[p]) == s[p])
  {
    if s == [] then None
    else Some((seq(|s|, p requires 0 <= p < |s| => s[p].0), seq(|s|, p requires 0 <= p < |s| => s[p].1)))
  }

  /** A sequence of distinct values holds as many as its set of them. */
  lemma {:induction false} DistinctCard(s: seq<nat>)
    requires Distinct(s)
    ensures |Values(s)| == |s|
  {
    if s != [] {
      var init := s[..|s| - 1];
      DistinctCard(init);
      assert s[|s| - 1] !in init by {
        forall p | 0 <= p < |init|
          ensures init[p] != s[|s| - 1]
        {
          assert init[p] == s[p];
        }
      }
      var before, after := Values(init), Values(s);
      assert after == before + {s[|s| - 1]} by {
        assert s == init + [s[|s| - 1]];
      }
      assert |after| == |before| + 1;
    }
  }

  /** `sorted(degree_counts.items())`: one pair (d, count of d) per key,
      with strictly increasing degrees. */
  lemma SortedItems(order: seq<nat>, counts: map<nat, nat>)
    requires Distinct(order) && forall d :: d in order <==> d in counts
    ensures var s := SortPairs(Items(order, counts));
      && |s| == |order|
      && (forall p, q :: 0 <= p < q < |s| ==> s[p].0 < s[q].0)
      && (forall p :: 0 <= p < |s| ==> s[p].0 in counts && s[p].1 == counts[s[p].0])
      && (forall d :: d in counts ==> exists p :: 0 <= p < |s| && s[p].0 == d)
  {
    var items := Items(order, counts);
    var sorted := SortPairs(items);
    assert |sorted| == |items| by {
      assert |multiset(sorted)| == |multiset(items)|;
    }
    SortPairsSorted(items);
    forall p | 0 <= p < |sorted|
      ensures sorted[p].0 in counts && sorted[p].1 == counts[sorted[p].0]
    {
      assert sorted[p] in multiset(items);
    }
    forall d | d in counts
      ensures exists p :: 0 <= p < |sorted| && sorted[p].0 == d
    {
      var p :| 0 <= p < |order| && order[p] == d;
      assert items[p] in multiset(sorted);
    }
  }

  /** Lines 11-19 of the script on a list of degrees: the degree axis x
      strictly increases and holds exactly the degrees that occur, one entry
      per distinct degree; y[p] is the number of positions holding x[p], at
      least one; and the unpacking fails (None) on an empty list. */
  method HistogramOf(degrees: seq<nat>) returns (r: Option<(seq<nat>, seq<nat>)>)
    ensures r.None? <==> degrees == []
    ensures r.Some? ==>
      var x, y := r.value.0, r.value.1;
      && |x| == |y| == |Values(degrees)|
      && (forall p, q :: 0 <= p < q < |x| ==> x[p] < x[q])
      && (forall d :: d in x <==> d in degrees)
      && (forall p :: 0 <= p < |x| ==> y[p] == multiset(degrees)[x[p]] && y[p] >= 1)
  {
    var order, counts := CountDegrees(degrees);
    var sorted := SortPairs(Items(order, counts));
    SortedItems(order, counts);
    KeysCount(degrees, order);
    r := Unzip(sorted);
    if r.Some? {
      Axes(sorted, counts, degrees);
    }
  }

  /** Distinct keys covering exactly the values of a list: as many as its
      distinct values, and none exactly when the list is empty. */
  lemma KeysCount(degrees: seq<nat>, order: seq<nat>)
    requires Distinct(order) && forall d :: d in order <==> d in degrees
    ensures |order| == |Values(degrees)|
    ensures degrees == [] <==> order == []
  {
    DistinctCard(order);
    assert Values(degrees) == Values(order);
    if degrees != [] {
      assert degrees[0] in order;
    }
  }

  /** The two axes split from the sorted tally of degrees: x lists the
      degrees that occur in increasing order, y how often each occurs. */
  lemma Axes(s: seq<(nat, nat)>, counts: map<nat, nat>, degrees: seq<nat>)
    requires s != []
    requires forall p, q :: 0 <= p < q < |s| ==> s[p].0 < s[q].0
    requires forall p :: 0 <= p < |s| ==> s[p].0 in counts && s[p].1 == counts[s[p].0]
    requires forall d :: d in counts ==> exists p :: 0 <= p < |s| && s[p].0 == d
    requires forall d :: d in counts <==> d in degrees
    requires forall d :: d in counts ==> counts[d] == multiset(degrees)[d] && counts[d] >= 1
    ensures var x, y := Unzip(s).value.0, Unzip(s).value.1;
      && |x| == |y| == |s|
      && (forall p, q :: 0 <= p < q < |x| ==> x[p] < x[q])
      && (forall d :: d in x <==> d in degrees)
      && (forall p :: 0 <= p < |x| ==> y[p] == multiset(degrees)[x[p]] && y[p] >= 1)
  {
    var x := Unzip(s).value.0;
    forall d | d in counts
      ensures d in x
    {
      var p :| 0 <= p < |s| && s[p].0 == d;
      assert x[p] == d;
    }
  }

  /** Lines 8-19 of the script: the histogram of the degrees of G1's nodes,
      y[p] being the number of nodes whose degree is x[p]. */
  method Histogram(graph: Graph) returns (r: Option<(seq<nat>, seq<nat>)>)
    requires WellFormed(graph.Value())
    ensures r.None? <==> |graph.nodes| == 0
    ensures r.Some? ==>
      var x, y, g := r.value.0, r.value.1, graph.Value();
      && |x| == |y| == |Values(Degrees(g))|
      && (forall p, q :: 0 <= p < q < |x| ==> x[p] < x[q])
      && (forall d :: d in x <==> exists n :: n in g.nodes && Degree(g, n) == d)
      && (forall p :: 0 <= p < |x| ==> y[p] == |OfDegree(g, g.nodes, x[p])| && y[p] >= 1)
  {
    ghost var g := graph.Value();
    r := HistogramOf(Degrees(graph.Value()));
    forall d
      ensures (d in Degrees(g)) == (exists n :: n in g.nodes && Degree(g, n) == d)
      ensures multiset(Degrees(g))[d] == |OfDegree(g, g.nodes, d)|
    {
      OccurrencesCountNodes(g, g.nodes, d);
      if exists n :: n in g.nodes && Degree(g, n) == d {
        var n :| n in g.nodes && Degree(g, n) == d;
        var p :| 0 <= p < |g.nodes| && g.nodes[p] == n;
        assert Degrees(g)[p] == d;
      }
    }
  }
}
