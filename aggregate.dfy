/** `sum` and `statistics.mean` over the attribute lists that merging and
    coarsening build, with exact reals standing in for floats. */
module Aggregates {
  import opened Graphs

  /** `sum`; a list of non-negative values has a non-negative sum. */
  function Sum(xs: seq<real>): (r: real)
    ensures (forall q :: 0 <= q < |xs| ==> xs[q] >= 0.0) ==> r >= 0.0
  {
    if xs == [] then 0.0 else Sum(xs[..|xs| - 1]) + xs[|xs| - 1]
  }

  /** `statistics.mean`, which raises on an empty list. */
  function Mean(xs: seq<real>): (r: real)
    requires xs != []
    ensures r * (|xs| as real) == Sum(xs)
  {
    Sum(xs) / (|xs| as real)
  }

  /** Every listed node has attributes. */
  ghost predicate Covers(attrs: map<nat, Attr>, ms: seq<nat>) {
    forall m :: m in ms ==> m in attrs
  }

  function Lats(attrs: map<nat, Attr>, ms: seq<nat>): seq<real>
    requires Covers(attrs, ms)
  {
    seq(|ms|, p requires 0 <= p < |ms| => attrs[ms[p]].lat)
  }

  function Lons(attrs: map<nat, Attr>, ms: seq<nat>): seq<real>
    requires Covers(attrs, ms)
  {
    seq(|ms|, p requires 0 <= p < |ms| => attrs[ms[p]].lon)
  }

  function Frps(attrs: map<nat, Attr>, ms: seq<nat>): seq<real>
    requires Covers(attrs, ms)
  {
    seq(|ms|, p requires 0 <= p < |ms| => attrs[ms[p]].frp)
  }

  /** The node that stands for the members `ms`: mean latitude, mean longitude
      and summed FRP. */
  function Aggregate(attrs: map<nat, Attr>, ms: seq<nat>): Attr
    requires ms != [] && Covers(attrs, ms)
  {
    Attr(Mean(Lats(attrs, ms)), Mean(Lons(attrs, ms)), Sum(Frps(attrs, ms)))
  }

  /** Sum over the nodes of a graph value of their FRP. */
  function TotalFrp(g: GraphValue): real
    requires Attributed(g)
  {
    Sum(Frps(g.attrs, g.nodes))
  }

  lemma {:induction false} SumAppend(a: seq<real>, b: seq<real>)
    ensures Sum(a + b) == Sum(a) + Sum(b)
    decreases |b|
  {
    if b == [] {
      assert a + b == a;
    } else {
      var b' := b[..|b| - 1];
      assert (a + b)[..|a + b| - 1] == a + b';
      SumAppend(a, b');
    }
  }

  lemma FrpsAppend(attrs: map<nat, Attr>, a: seq<nat>, b: seq<nat>)
    requires Covers(attrs, a) && Covers(attrs, b)
    ensures Covers(attrs, a + b) && Frps(attrs, a + b) == Frps(attrs, a) + Frps(attrs, b)
  {
  }

  lemma SumFrpsConcat(attrs: map<nat, Attr>, a: seq<nat>, b: seq<nat>)
    requires Covers(attrs, a) && Covers(attrs, b)
    ensures Covers(attrs, a + b) && Sum(Frps(attrs, a + b)) == Sum(Frps(attrs, a)) + Sum(Frps(attrs, b))
  {
    FrpsAppend(attrs, a, b);
    SumAppend(Frps(attrs, a), Frps(attrs, b));
  }

  lemma SumFrpsRemove(attrs: map<nat, Attr>, b: seq<nat>, k: nat)
    requires Covers(attrs, b) && k < |b|
    ensures Sum(Frps(attrs, b)) == Sum(Frps(attrs, b[..k] + b[k + 1..])) + attrs[b[k]].frp
  {
    var l, x, r := b[..k], b[k], b[k + 1..];
    assert b == l + [x] + r;
    SumFrpsConcat(attrs, l + [x], r);
    SumFrpsConcat(attrs, l, [x]);
    SumFrpsConcat(attrs, l, r);
    assert Sum(Frps(attrs, [x])) == attrs[x].frp by {
      assert Frps(attrs, [x]) == [attrs[x].frp];
      assert Frps(attrs, [x])[..0] == [];
    }
  }

  /** The summed FRP of a list of nodes depends only on which nodes it holds,
      not on their order. */
  lemma {:induction false} SumFrpsPermutation(attrs: map<nat, Attr>, a: seq<nat>, b: seq<nat>)
    requires Covers(attrs, a) && multiset(a) == multiset(b)
    ensures Covers(attrs, b) && Sum(Frps(attrs, a)) == Sum(Frps(attrs, b))
    decreases |a|
  {
    assert Covers(attrs, b) by {
      forall m | m in b ensures m in attrs {
        assert m in multiset(b);
      }
    }
    if a == [] {
      assert b == [] by {
        assert |multiset(b)| == 0;
      }
    } else {
      var x := a[|a| - 1];
      var a' := a[..|a| - 1];
      var k := IndexOf(b, x, multiset(a));
      var b' := b[..k] + b[k + 1..];
      assert multiset(a') == multiset(b') by {
        RemoveMultiset(a, |a| - 1);
        RemoveMultiset(b, k);
        assert a[..|a| - 1] + a[|a|..] == a';
      }
      SumFrpsPermutation(attrs, a', b');
      SumFrpsRemove(attrs, b, k);
      SumFrpsRemove(attrs, a, |a| - 1);
      assert a[..|a| - 1] + a[|a|..] == a';
    }
  }

  lemma RemoveMultiset(s: seq<nat>, k: nat)
    requires k < |s|
    ensures multiset(s[..k] + s[k + 1..]) == multiset(s) - multiset{s[k]}
  {
    assert s == s[..k] + [s[k]] + s[k + 1..];
  }

  lemma IndexOf(s: seq<nat>, x: nat, m: multiset<nat>) returns (k: nat)
    requires m == multiset(s) && x in m
    ensures k < |s| && s[k] == x
  {
    k :| 0 <= k < |s| && s[k] == x;
  }

  /** A mean lies between any lower and upper bound of its values. */
  lemma {:induction false} MeanBetween(xs: seq<real>, lo: real, hi: real)
    requires xs != []
    requires forall p :: 0 <= p < |xs| ==> lo <= xs[p] <= hi
    ensures lo <= Mean(xs) <= hi
  {
    SumBetween(xs, lo, hi);
    QuotientBetween(Sum(xs), |xs| as real, lo, hi);
  }

  lemma QuotientBetween(s: real, n: real, lo: real, hi: real)
    requires n > 0.0 && n * lo <= s <= n * hi
    ensures lo <= s / n <= hi
  {
  }

  lemma {:induction false} SumBetween(xs: seq<real>, lo: real, hi: real)
    requires forall p :: 0 <= p < |xs| ==> lo <= xs[p] <= hi
    ensures (|xs| as real) * lo <= Sum(xs) <= (|xs| as real) * hi
    decreases |xs|
  {
    if xs != [] {
      var n := |xs| - 1;
      SumBetween(xs[..n], lo, hi);
      assert Sum(xs) == Sum(xs[..n]) + xs[n];
      assert (|xs| as real) * lo == (n as real) * lo + lo;
      assert (|xs| as real) * hi == (n as real) * hi + hi;
    }
  }

  /** With non-negative FRP values, an aggregate's FRP is at least the FRP of
      each member. */
  lemma {:induction false} SumAtLeastEach(xs: seq<real>, p: nat)
    requires forall q :: 0 <= q < |xs| ==> xs[q] >= 0.0
    requires p < |xs|
    ensures Sum(xs) >= xs[p]
    decreases |xs|
  {
    if p < |xs| - 1 {
      SumAtLeastEach(xs[..|xs| - 1], p);
    }
  }

  /** The aggregate of a group sits inside the latitude/longitude box of its
      members, and with non-negative FRP it carries at least each member's FRP. */
  lemma AggregateBounds(attrs: map<nat, Attr>, ms: seq<nat>, latLo: real, latHi: real, lonLo: real, lonHi: real)
    requires ms != [] && Covers(attrs, ms)
    requires forall m :: m in ms ==> latLo <= attrs[m].lat <= latHi && lonLo <= attrs[m].lon <= lonHi
    ensures latLo <= Aggregate(attrs, ms).lat <= latHi
    ensures lonLo <= Aggregate(attrs, ms).lon <= lonHi
    ensures (forall m :: m in ms ==> attrs[m].frp >= 0.0) ==>
              forall m :: m in ms ==> Aggregate(attrs, ms).frp >= attrs[m].frp
  {
    MeanBetween(Lats(attrs, ms), latLo, latHi);
    MeanBetween(Lons(attrs, ms), lonLo, lonHi);
    if forall m :: m in ms ==> attrs[m].frp >= 0.0 {
      forall m | m in ms
        ensures Aggregate(attrs, ms).frp >= attrs[m].frp
      {
        var p :| 0 <= p < |ms| && ms[p] == m;
        SumAtLeastEach(Frps(attrs, ms), p);
      }
    }
  }

  /** The lists `lats`, `longs` and `frp` that the source fills, member by
      member, before taking their means and sum. */
  method AttrLists(attrs: map<nat, Attr>, ms: seq<nat>) returns (lats: seq<real>, longs: seq<real>, frp: seq<real>)
    requires Covers(attrs, ms)
    ensures lats == Lats(attrs, ms) && longs == Lons(attrs, ms) && frp == Frps(attrs, ms)
  {
    lats, longs, frp := [], [], [];
    for k := 0 to |ms|
      invariant |lats| == k && |longs| == k && |frp| == k
      invariant forall p :: 0 <= p < k ==> lats[p] == attrs[ms[p]].lat
      invariant forall p :: 0 <= p < k ==> longs[p] == attrs[ms[p]].lon
      invariant forall p :: 0 <= p < k ==> frp[p] == attrs[ms[p]].frp
    {
      var a := attrs[ms[k]];
      lats, longs, frp := lats + [a.lat], longs + [a.lon], frp + [a.frp];
    }
  }
}
