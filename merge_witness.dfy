/** Two four-detection tables on which `merge_close_nodes` does not behave
    like a clustering into disjoint groups. The detections lie on a meridian,
    the distance is the latitude gap, the merge threshold is 1, and every FRP
    is 1. */
module MergeWitness {
  import opened Graphs
  import opened Aggregates
  import opened MergeGroups
  import opened MergeGraph

  /** The gap between two latitudes. */
  function LatGap(p: Point, q: Point): (r: real)
    ensures r >= 0.0 && (p.lat <= q.lat ==> r == q.lat - p.lat)
  {
    if p.lat <= q.lat then q.lat - p.lat else p.lat - q.lat
  }

  lemma LatGapIsDistance()
    ensures IsDistance(LatGap)
  {
  }

  /** A detection of FRP 1 at latitude `lat`. */
  function At(lat: real): Attr {
    Attr(lat, 0.0, 1.0)
  }

  /** The loaded table of four detections at latitudes a, b, c and d: nodes
      0 .. 3, no edges. */
  function Table(a: real, b: real, c: real, d: real): (g: GraphValue)
    ensures WellFormed(g) && Attributed(g) && g.weights == map[]
  {
    GraphValue([0, 1, 2, 3], map[0 := At(a), 1 := At(b), 2 := At(c), 3 := At(d)], map[])
  }

  /** Detections at latitudes 0, 1.8, 2.7 and 0.9: the close pairs are (0, 3),
      (1, 2) and (1, 3). */
  function Vanishing(): GraphValue {
    Table(0.0, 1.8, 2.7, 0.9)
  }

  /** Row 0: pair (0, 3) makes the group [0, 3]. */
  lemma VanishingRow0()
    ensures GroupUpTo(Vanishing(), LatGap, 1.0, 1) == Groups([0], map[0 := [0, 3]], {3})
  {
    var g, t := Vanishing(), 1.0;
    assert !Close(g, LatGap, t, 0, 1) && !Close(g, LatGap, t, 0, 2);
    assert GroupRow(g, LatGap, t, NoGroups, 0, 3) == NoGroups;
    assert Close(g, LatGap, t, 0, 3);
    assert FirstFiring(NoGroups, 0, 3, 0) == None;
  }

  /** Row 1 up to pair (1, 2): it finds no group holding exactly one of 1
      and 2, so it makes [1, 2]. */
  lemma VanishingPair12()
    ensures GroupRow(Vanishing(), LatGap, 1.0, Groups([0], map[0 := [0, 3]], {3}), 1, 3)
         == Groups([0, 1], map[0 := [0, 3], 1 := [1, 2]], {2, 3})
  {
    var g, t := Vanishing(), 1.0;
    var s1 := Groups([0], map[0 := [0, 3]], {3});
    assert Close(g, LatGap, t, 1, 2);
    assert FirstFiring(s1, 1, 2, 0) == None;
    assert PairStep(g, LatGap, t, s1, 1, 2) == Groups([0, 1], map[0 := [0, 3], 1 := [1, 2]], {2, 3});
  }

  /** Row 1: pair (1, 3) then appends 1 to [0, 3]. */
  lemma VanishingRow1()
    ensures GroupRow(Vanishing(), LatGap, 1.0, Groups([0], map[0 := [0, 3]], {3}), 1, 4)
         == Groups([0, 1], map[0 := [0, 3, 1], 1 := [1, 2]], {1, 2, 3})
  {
    var g, t := Vanishing(), 1.0;
    var s2 := Groups([0, 1], map[0 := [0, 3], 1 := [1, 2]], {2, 3});
    VanishingPair12();
    assert Close(g, LatGap, t, 1, 3);
    assert FirstFiring(s2, 1, 3, 0) == Some(0);
    assert s2.members[0] + [1] == [0, 3, 1];
    assert s2.members[0 := [0, 3, 1]] == map[0 := [0, 3, 1], 1 := [1, 2]];
    assert PairStep(g, LatGap, t, s2, 1, 3) == Groups([0, 1], map[0 := [0, 3, 1], 1 := [1, 2]], {1, 2, 3});
  }

  /** Rows 2 and 3 visit no close pair. */
  lemma VanishingRest(s: Groups)
    requires KeysAgree(s) && GroupUpTo(Vanishing(), LatGap, 1.0, 2) == s
    ensures Grouping(Vanishing(), LatGap, 1.0) == s
  {
    var g, t := Vanishing(), 1.0;
    assert g.nodes == [0, 1, 2, 3] && g.attrs[2] == At(2.7) && g.attrs[3] == At(0.9);
    assert !Close(g, LatGap, t, 2, 3);
    assert PairStep(g, LatGap, t, s, 2, 3) == s;
    assert GroupRow(g, LatGap, t, s, 2, 4) == s;
    assert GroupUpTo(g, LatGap, t, 3) == s;
    assert GroupRow(g, LatGap, t, s, 3, 4) == s;
  }

  /** The pair loop on the first table: node 1 keys a group but is itself
      merged away, so node 2, listed only in node 1's group, belongs to no
      surviving group. */
  lemma VanishingGroups()
    ensures Grouping(Vanishing(), LatGap, 1.0) == Groups([0, 1], map[0 := [0, 3, 1], 1 := [1, 2]], {1, 2, 3})
  {
    VanishingRow0();
    VanishingRow1();
    VanishingRest(Groups([0, 1], map[0 := [0, 3, 1], 1 := [1, 2]], {1, 2, 3}));
  }

  /** On the first table merging keeps node 0 alone, carrying the FRP of
      nodes 0, 3 and 1: detection 2 vanishes, and the result's total FRP is 3
      where the table's is 4. */
  lemma DetectionVanishes(g: GraphValue)
    requires g == Vanishing()
    ensures var h := MergeSpec(g, LatGap, 1.0);
      && h.nodes == [0] && Attributed(h) && h.attrs[0].frp == 3.0
      && TotalFrp(h) == 3.0 && TotalFrp(g) == 4.0
  {
    VanishingGroups();
    UnitTable(g);
    UnitFrps(g.attrs, g.nodes);
    var s := Grouping(g, LatGap, 1.0);
    Remaining(g.nodes, s.merged, [0]);
    VanishingMerge(g, s);
  }

  lemma VanishingMerge(g: GraphValue, s: Groups)
    requires WellFormed(g) && Attributed(g) && g.weights == map[] && Increasing(g.nodes)
    requires forall m :: m in g.attrs ==> g.attrs[m].frp == 1.0
    requires s == Groups([0, 1], map[0 := [0, 3, 1], 1 := [1, 2]], {1, 2, 3})
    requires Grouping(g, LatGap, 1.0) == s
    requires forall x :: x in [0] <==> x in g.nodes && x !in s.merged
    ensures var h := MergeSpec(g, LatGap, 1.0);
      && h.nodes == [0] && Attributed(h) && h.attrs[0].frp == 3.0 && TotalFrp(h) == 3.0
  {
    MergedTable(g, 1.0, s, [0]);
    var h := MergeSpec(g, LatGap, 1.0);
    assert s.members[0] == [0, 3, 1] && 0 in [0] && 0 in s.members;
    GroupFrps(g, h, 0, [0, 3, 1]);
    SingleFrp(h);
  }

  /** Detections at latitudes 0, 2.7, 0.9 and 1.8: the close pairs are (0, 2),
      (1, 3) and (2, 3). */
  function Doubling(): GraphValue {
    Table(0.0, 2.7, 0.9, 1.8)
  }

  /** Row 0: pair (0, 2) makes the group [0, 2]. */
  lemma DoublingRow0()
    ensures GroupUpTo(Doubling(), LatGap, 1.0, 1) == Groups([0], map[0 := [0, 2]], {2})
  {
    var g, t := Doubling(), 1.0;
    var s1 := Groups([0], map[0 := [0, 2]], {2});
    assert !Close(g, LatGap, t, 0, 1) && Close(g, LatGap, t, 0, 2) && !Close(g, LatGap, t, 0, 3);
    assert GroupRow(g, LatGap, t, NoGroups, 0, 2) == NoGroups;
    assert FirstFiring(NoGroups, 0, 2, 0) == None;
    assert PairStep(g, LatGap, t, NoGroups, 0, 2) == s1;
    assert GroupRow(g, LatGap, t, NoGroups, 0, 3) == s1;
    assert GroupRow(g, LatGap, t, NoGroups, 0, 4) == s1;
  }

  /** Row 1: pair (1, 3) finds no group holding exactly one of them and makes
      [1, 3]. */
  lemma DoublingRow1()
    ensures GroupRow(Doubling(), LatGap, 1.0, Groups([0], map[0 := [0, 2]], {2}), 1, 4)
         == Groups([0, 1], map[0 := [0, 2], 1 := [1, 3]], {2, 3})
  {
    var g, t := Doubling(), 1.0;
    var s1 := Groups([0], map[0 := [0, 2]], {2});
    assert !Close(g, LatGap, t, 1, 2) && Close(g, LatGap, t, 1, 3);
    assert GroupRow(g, LatGap, t, s1, 1, 3) == s1;
    assert FirstFiring(s1, 1, 3, 0) == None;
  }

  /** Row 2: pair (2, 3) appends 3 to [0, 2], the first group holding exactly
      one of them, though 3 is already in [1, 3]. */
  lemma DoublingRow2()
    ensures GroupRow(Doubling(), LatGap, 1.0, Groups([0, 1], map[0 := [0, 2], 1 := [1, 3]], {2, 3}), 2, 4)
         == Groups([0, 1], map[0 := [0, 2, 3], 1 := [1, 3]], {2, 3})
  {
    var g, t := Doubling(), 1.0;
    var s2 := Groups([0, 1], map[0 := [0, 2], 1 := [1, 3]], {2, 3});
    var s3 := Groups([0, 1], map[0 := [0, 2, 3], 1 := [1, 3]], {2, 3});
    assert g.nodes == [0, 1, 2, 3] && g.attrs[2] == At(0.9) && g.attrs[3] == At(1.8);
    assert Close(g, LatGap, t, 2, 3);
    assert FirstFiring(s2, 2, 3, 0) == Some(0);
    assert s2.members[0] + [3] == [0, 2, 3];
    assert s2.members[0 := [0, 2, 3]] == s3.members;
    assert PairStep(g, LatGap, t, s2, 2, 3) == s3;
  }

  /** The pair loop on the second table. */
  lemma DoublingGroups()
    ensures Grouping(Doubling(), LatGap, 1.0) == Groups([0, 1], map[0 := [0, 2, 3], 1 := [1, 3]], {2, 3})
  {
    var g, t := Doubling(), 1.0;
    var s3 := Groups([0, 1], map[0 := [0, 2, 3], 1 := [1, 3]], {2, 3});
    DoublingRow0();
    DoublingRow1();
    DoublingRow2();
    assert GroupUpTo(g, LatGap, t, 3) == s3;
    assert GroupRow(g, LatGap, t, s3, 3, 4) == s3;
  }

  /** On the second table merging keeps nodes 0 and 1 with FRP 3 and 2:
      detection 3 is counted in both, and the result's total FRP is 5 where
      the table's is 4. */
  lemma DetectionCountedTwice(g: GraphValue)
    requires g == Doubling()
    ensures var h := MergeSpec(g, LatGap, 1.0);
      && h.nodes == [0, 1] && Attributed(h) && h.attrs[0].frp == 3.0 && h.attrs[1].frp == 2.0
      && TotalFrp(h) == 5.0 && TotalFrp(g) == 4.0
  {
    DoublingGroups();
    UnitTable(g);
    UnitFrps(g.attrs, g.nodes);
    var s := Grouping(g, LatGap, 1.0);
    Remaining(g.nodes, s.merged, [0, 1]);
    DoublingMerge(g, s);
  }

  lemma DoublingMerge(g: GraphValue, s: Groups)
    requires WellFormed(g) && Attributed(g) && g.weights == map[] && Increasing(g.nodes)
    requires forall m :: m in g.attrs ==> g.attrs[m].frp == 1.0
    requires s == Groups([0, 1], map[0 := [0, 2, 3], 1 := [1, 3]], {2, 3})
    requires Grouping(g, LatGap, 1.0) == s
    requires forall x :: x in [0, 1] <==> x in g.nodes && x !in s.merged
    ensures var h := MergeSpec(g, LatGap, 1.0);
      && h.nodes == [0, 1] && Attributed(h) && h.attrs[0].frp == 3.0 && h.attrs[1].frp == 2.0
      && TotalFrp(h) == 5.0
  {
    MergedTable(g, 1.0, s, [0, 1]);
    var h := MergeSpec(g, LatGap, 1.0);
    assert s.members[0] == [0, 2, 3] && 0 in [0, 1] && 0 in s.members;
    assert s.members[1] == [1, 3] && 1 in [0, 1] && 1 in s.members;
    DoublingTotals(g, h);
  }

  lemma DoublingTotals(g: GraphValue, h: GraphValue)
    requires forall m :: m in g.attrs ==> g.attrs[m].frp == 1.0
    requires Attributed(h) && h.nodes == [0, 1]
    requires Covers(g.attrs, [0, 2, 3]) && h.attrs[0].frp == Sum(Frps(g.attrs, [0, 2, 3]))
    requires Covers(g.attrs, [1, 3]) && h.attrs[1].frp == Sum(Frps(g.attrs, [1, 3]))
    ensures h.attrs[0].frp == 3.0 && h.attrs[1].frp == 2.0 && TotalFrp(h) == 5.0
  {
    GroupFrps(g, h, 0, [0, 2, 3]);
    GroupFrps(g, h, 1, [1, 3]);
    PairFrp(h);
  }

  /** A surviving key whose group has only FRP-1 members carries the group's size. */
  lemma GroupFrps(g: GraphValue, h: GraphValue, n: nat, ms: seq<nat>)
    requires forall m :: m in g.attrs ==> g.attrs[m].frp == 1.0
    requires Covers(g.attrs, ms) && n in h.attrs && h.attrs[n].frp == Sum(Frps(g.attrs, ms))
    ensures h.attrs[n].frp == |ms| as real
  {
    UnitFrps(g.attrs, ms);
  }

  /** The nodes 0 .. 3 outside `merged` are those of `rest`. */
  lemma Remaining(ns: seq<nat>, merged: set<nat>, rest: seq<nat>)
    requires ns == [0, 1, 2, 3]
    requires (rest == [0] && merged == {1, 2, 3}) || (rest == [0, 1] && merged == {2, 3})
    ensures forall x :: x in rest <==> x in ns && x !in merged
  {
  }

  /** Every detection of a table has FRP 1. */
  lemma UnitTable(g: GraphValue)
    requires exists a, b, c, d :: g == Table(a, b, c, d)
    ensures WellFormed(g) && Attributed(g) && g.weights == map[] && g.nodes == [0, 1, 2, 3]
    ensures Increasing(g.nodes)
    ensures forall m :: m in g.attrs ==> g.attrs[m].frp == 1.0
  {
  }

  /** Nodes of FRP 1 sum to their number. */
  lemma {:induction false} UnitFrps(attrs: map<nat, Attr>, ms: seq<nat>)
    requires forall m :: m in ms ==> m in attrs && attrs[m].frp == 1.0
    ensures Covers(attrs, ms) && Sum(Frps(attrs, ms)) == |ms| as real
    decreases |ms|
  {
    if ms != [] {
      var init := ms[..|ms| - 1];
      UnitFrps(attrs, init);
      assert Frps(attrs, ms)[..|ms| - 1] == Frps(attrs, init);
    }
  }

  lemma SingleFrp(h: GraphValue)
    requires Attributed(h) && h.nodes == [0]
    ensures TotalFrp(h) == h.attrs[0].frp
  {
    var fs := Frps(h.attrs, h.nodes);
    assert fs[..0] == [] && fs[0] == h.attrs[0].frp;
    assert Sum(fs) == Sum(fs[..0]) + fs[0];
  }

  lemma PairFrp(h: GraphValue)
    requires Attributed(h) && h.nodes == [0, 1]
    ensures TotalFrp(h) == h.attrs[0].frp + h.attrs[1].frp
  {
    var fs := Frps(h.attrs, h.nodes);
    assert fs[0] == h.attrs[0].frp && fs[1] == h.attrs[1].frp;
    assert fs[..1][..0] == [] && fs[..2 - 1] == fs[..1];
    assert Sum(fs[..1]) == Sum(fs[..1][..0]) + fs[0];
    assert Sum(fs) == Sum(fs[..1]) + fs[1];
  }

  /** On an edge-free table, the merged graph's nodes are the nodes outside
      `nodes_to_merge`, in order, and a surviving group key carries the summed
      FRP of its group. */
  lemma MergedTable(g: GraphValue, t: real, s: Groups, rest: seq<nat>)
    requires WellFormed(g) && Attributed(g) && g.weights == map[]
    requires Increasing(g.nodes) && Grouping(g, LatGap, t) == s
    requires Increasing(rest)
    requires forall x :: x in rest <==> x in g.nodes && x !in s.merged
    ensures var h := MergeSpec(g, LatGap, t);
      && h.nodes == rest && Attributed(h)
      && forall n :: n in rest && n in s.members ==>
           Covers(g.attrs, s.members[n]) && h.attrs[n].frp == Sum(Frps(g.attrs, s.members[n]))
  {
    MergeEdgeFree(g, LatGap, t);
    SurvivorsIncreasing(g.nodes, s.merged);
    IncreasingUnique(Survivors(g.nodes, s.merged), rest);
    forall n | n in rest && n in s.members
      ensures Covers(g.attrs, s.members[n])
      ensures MergeSpec(g, LatGap, t).attrs[n].frp == Sum(Frps(g.attrs, s.members[n]))
    {
      MergeAttrs(g, LatGap, t, n);
    }
  }

  predicate Increasing(s: seq<nat>) {
    forall p, q :: 0 <= p < q < |s| ==> s[p] < s[q]
  }

  /** Dropping nodes from an increasing list leaves an increasing list. */
  lemma {:induction false} SurvivorsIncreasing(ns: seq<nat>, merged: set<nat>)
    requires Increasing(ns)
    ensures Increasing(Survivors(ns, merged))
    decreases |ns|
  {
    if ns != [] {
      var init, last := ns[..|ns| - 1], ns[|ns| - 1];
      SurvivorsIncreasing(init, merged);
      var r, full := Survivors(init, merged), Survivors(ns, merged);
      assert full == r + (if last in merged then [] else [last]);
      forall p, q | 0 <= p < q < |full|
        ensures full[p] < full[q]
      {
        assert full[p] == r[p] && r[p] in init;
        if q < |r| {
          assert full[q] == r[q];
        } else {
          var k :| 0 <= k < |init| && init[k] == r[p];
          assert ns[k] == r[p];
          assert full[q] == last;
        }
      }
    }
  }

  /** Two strictly increasing lists with the same elements are equal. */
  lemma {:induction false} IncreasingUnique(a: seq<nat>, b: seq<nat>)
    requires forall x :: x in a <==> x in b
    requires Increasing(a)
    requires Increasing(b)
    ensures a == b
    decreases |a|
  {
    SameEmpty(a, b);
    if a != [] {
      assert a[0] == b[0] by {
        assert a[0] in b && b[0] in a;
      }
      forall x
        ensures x in a[1..] <==> x in b[1..]
      {
        if x in a[1..] {
          var p :| 1 <= p < |a| && a[p] == x;
          assert x in a && x in b;
          var q :| 0 <= q < |b| && b[q] == x;
          assert q != 0 && b[1..][q - 1] == x;
        }
        if x in b[1..] {
          var q :| 1 <= q < |b| && b[q] == x;
          assert x in b && x in a;
          var p :| 0 <= p < |a| && a[p] == x;
          assert p != 0 && a[1..][p - 1] == x;
        }
      }
      IncreasingUnique(a[1..], b[1..]);
      assert a == [a[0]] + a[1..] && b == [b[0]] + b[1..];
    }
  }

  /** Lists with the same elements are empty together. */
  lemma SameEmpty(a: seq<nat>, b: seq<nat>)
    requires forall x :: x in a <==> x in b
    ensures a == [] <==> b == []
  {
    if a != [] {
      assert a[0] in a;
    }
    if b != [] {
      assert b[0] in b;
    }
  }
}
