/** Two-objective Pareto fronts for minimisation, shared by the result-analysis scripts: the
    front a sort-and-sweep filter keeps, what that front is (the non-dominated points of the
    input, one copy each, ordered by the first objective), and the reference point built from
    the largest observed objective values. Python floats are modelled as `real`. */
module Pareto {
  import opened Sorting

  /** An objective pair (f1, f2): makespan and dissatisfaction of one solution. */
  datatype Point = Point(f1: real, f2: real)

  /** A float that may be +infinity, the starting value of `best_f2`. */
  datatype Bound = PlusInfinity | Finite(value: real)

  /** x < b, every real being below +infinity. */
  predicate Below(x: real, b: Bound)
  {
    b.PlusInfinity? || x < b.value
  }

  /** The state of a hypervolume sweep: the area so far and the current height level. */
  datatype Sweep = Sweep(hv: real, level: real)

  /** Python's tuple order on (f1, f2): by f1, then by f2. */
  function LexLess(a: Point, b: Point): bool
  {
    a.f1 < b.f1 || (a.f1 == b.f1 && a.f2 < b.f2)
  }

  /** The order of `key=lambda x: x[0]`: by f1 alone. */
  function F1Less(a: Point, b: Point): bool
  {
    a.f1 < b.f1
  }

  lemma LexLessIsStrictWeakOrder()
    ensures StrictWeakOrder(LexLess)
  {
  }

  lemma F1LessIsStrictWeakOrder()
    ensures StrictWeakOrder(F1Less)
  {
  }

  /** a is at least as good as b in both objectives. */
  predicate WeaklyDominates(a: Point, b: Point)
  {
    a.f1 <= b.f1 && a.f2 <= b.f2
  }

  /** The sweep of the filter over pts, in input order: a point is kept when its f2 is below
      that of the last kept point (below +infinity while none has been kept). */
  function FrontOf(pts: seq<Point>): seq<Point>
  {
    if |pts| == 0 then []
    else
      var nd := FrontOf(pts[..|pts| - 1]);
      var p := pts[|pts| - 1];
      if |nd| == 0 || p.f2 < nd[|nd| - 1].f2 then nd + [p] else nd
  }

  /** The front is no longer than the list and empty only for the empty list; f2 strictly
      decreases along it, and its last point has the least f2 of the list. */
  lemma {:induction false} FrontOfFacts(pts: seq<Point>)
    ensures |FrontOf(pts)| <= |pts|
    ensures (|FrontOf(pts)| == 0) == (|pts| == 0)
    ensures forall i, j :: 0 <= i < j < |FrontOf(pts)| ==> FrontOf(pts)[i].f2 > FrontOf(pts)[j].f2
    ensures |FrontOf(pts)| > 0 ==> forall k :: 0 <= k < |pts| ==> FrontOf(pts)[|FrontOf(pts)| - 1].f2 <= pts[k].f2
  {
    if |pts| > 0 {
      var init := pts[..|pts| - 1];
      FrontOfFacts(init);
      assert forall k :: 0 <= k < |init| ==> init[k] == pts[k];
    }
  }

  /** Every kept point is a point of the swept list. */
  lemma {:induction false} FrontOfMembers(pts: seq<Point>)
    ensures forall k :: 0 <= k < |FrontOf(pts)| ==> FrontOf(pts)[k] in pts
  {
    if |pts| > 0 {
      var init := pts[..|pts| - 1];
      FrontOfMembers(init);
      forall k | 0 <= k < |FrontOf(init)| ensures FrontOf(init)[k] in pts {
        var a :| 0 <= a < |init| && init[a] == FrontOf(init)[k];
        assert pts[a] == init[a];
      }
    }
  }

  /** The loop the three scripts' filters share: over points sorted in tuple order, keeps each
      point whose f2 is below the best f2 kept so far (none at first). */
  method KeepBelowBest(pts: seq<Point>) returns (nd: seq<Point>)
    ensures nd == FrontOf(pts)
  {
    nd := [];
    var bestF2 := PlusInfinity;
    for i := 0 to |pts|
      invariant nd == FrontOf(pts[..i])
      invariant bestF2 == if |nd| == 0 then PlusInfinity else Finite(nd[|nd| - 1].f2)
    {
      assert pts[..i + 1][..i] == pts[..i];
      var f1, f2 := pts[i].f1, pts[i].f2;
      if Below(f2, bestF2) {
        nd := nd + [Point(f1, f2)];
        bestF2 := Finite(f2);
      }
    }
    assert pts[..|pts|] == pts;
  }

  /** The front of a point list: the list in Python tuple order, swept by FrontOf. */
  function LexFront(points: seq<Point>): seq<Point>
  {
    FrontOf(SortBy(points, LexLess))
  }

  /** x belongs to pts and no other point of pts is at least as good in both objectives. */
  ghost predicate NonDominatedIn(pts: seq<Point>, x: Point)
  {
    x in pts && forall q :: q in pts && WeaklyDominates(q, x) ==> q == x
  }

  /** Strictly increasing f1 along the sequence. */
  ghost predicate IncreasingF1(s: seq<Point>)
  {
    forall i, j :: 0 <= i < j < |s| ==> s[i].f1 < s[j].f1
  }

  /** The last kept point of a non-empty front is an element of the swept prefix. */
  lemma LastKeptIsEarlier(pts: seq<Point>) returns (a: nat)
    requires |FrontOf(pts)| > 0
    ensures a < |pts| && pts[a] == FrontOf(pts)[|FrontOf(pts)| - 1]
  {
    var nd := FrontOf(pts);
    FrontOfMembers(pts);
    assert nd[|nd| - 1] in pts;
    a :| 0 <= a < |pts| && pts[a] == nd[|nd| - 1];
  }

  /** Swept in tuple order, the kept points have strictly increasing f1. */
  lemma {:induction false} FrontIncreasingF1(pts: seq<Point>)
    requires Sorted(pts, LexLess)
    ensures IncreasingF1(FrontOf(pts))
  {
    if |pts| > 0 {
      var init := pts[..|pts| - 1];
      var p := pts[|pts| - 1];
      var nd := FrontOf(init);
      assert Sorted(init, LexLess);
      FrontIncreasingF1(init);
      if |nd| > 0 && p.f2 < nd[|nd| - 1].f2 {
        var a := LastKeptIsEarlier(init);
        assert !LexLess(p, pts[a]);
        assert nd[|nd| - 1].f1 < p.f1;
        var r := nd + [p];
        forall i, j | 0 <= i < j < |r| ensures r[i].f1 < r[j].f1 {
          if j == |nd| && i < |nd| - 1 {
            assert nd[i].f1 < nd[|nd| - 1].f1;
          }
        }
      }
    }
  }

  /** Swept in tuple order, input point k is weakly dominated by kept point j. */
  lemma {:induction false} FrontCoversPoint(pts: seq<Point>, k: nat) returns (j: nat)
    requires Sorted(pts, LexLess) && k < |pts|
    ensures j < |FrontOf(pts)| && WeaklyDominates(FrontOf(pts)[j], pts[k])
  {
    var init := pts[..|pts| - 1];
    var p := pts[|pts| - 1];
    var nd := FrontOf(init);
    assert Sorted(init, LexLess);
    if k < |pts| - 1 {
      j := FrontCoversPoint(init, k);
      assert init[k] == pts[k];
    } else if |nd| == 0 || p.f2 < nd[|nd| - 1].f2 {
      j := |nd|;
    } else {
      var a := LastKeptIsEarlier(init);
      assert !LexLess(p, pts[a]);
      j := |nd| - 1;
    }
  }

  /** A point of pts is a point of its prefix without the last element, or that last element. */
  lemma MemberOfPrefixOrLast(pts: seq<Point>, q: Point)
    requires |pts| > 0 && q in pts
    ensures q in pts[..|pts| - 1] || q == pts[|pts| - 1]
  {
    var a :| 0 <= a < |pts| && pts[a] == q;
    if a < |pts| - 1 {
      assert pts[..|pts| - 1][a] == q;
    }
  }

  /** Swept in tuple order, a kept point is non-dominated in the input. */
  lemma {:induction false} KeptIsNonDominated(pts: seq<Point>, x: Point)
    requires Sorted(pts, LexLess) && x in FrontOf(pts)
    ensures NonDominatedIn(pts, x)
  {
    var init := pts[..|pts| - 1];
    var p := pts[|pts| - 1];
    var nd := FrontOf(init);
    assert Sorted(init, LexLess);
    if x in nd {
      KeptIsNonDominated(init, x);
      FrontOfMembers(init);
      var a :| 0 <= a < |init| && init[a] == x;
      assert !LexLess(p, pts[a]);
      forall q | q in pts && WeaklyDominates(q, x) ensures q == x {
        MemberOfPrefixOrLast(pts, q);
      }
    } else {
      FrontOfFacts(init);
      forall q | q in pts && WeaklyDominates(q, x) ensures q == x {
        MemberOfPrefixOrLast(pts, q);
      }
    }
  }

  /** Non-domination in a list carries over to its prefixes that still hold the point. */
  lemma NonDominatedInPrefix(pts: seq<Point>, n: nat, x: Point)
    requires n <= |pts| && NonDominatedIn(pts, x) && x in pts[..n]
    ensures NonDominatedIn(pts[..n], x)
  {
    forall q | q in pts[..n] && WeaklyDominates(q, x) ensures q == x {
      var a :| 0 <= a < n && pts[..n][a] == q;
      assert pts[a] == q;
    }
  }

  /** Swept in tuple order, a non-dominated input point is kept. */
  lemma {:induction false} NonDominatedIsKept(pts: seq<Point>, x: Point)
    requires Sorted(pts, LexLess) && NonDominatedIn(pts, x)
    ensures x in FrontOf(pts)
  {
    var init := pts[..|pts| - 1];
    var nd := FrontOf(init);
    MemberOfPrefixOrLast(pts, x);
    if x in init {
      assert Sorted(init, LexLess);
      NonDominatedInPrefix(pts, |pts| - 1, x);
      NonDominatedIsKept(init, x);
    } else if |nd| > 0 {
      var a := LastKeptIsEarlier(init);
      var p := pts[|pts| - 1];
      assert !LexLess(p, pts[a]);
      assert pts[a] in pts;
    }
  }

  /** Lists with the same points are both empty or both non-empty. */
  lemma SameMembersSameEmptiness(a: seq<Point>, b: seq<Point>)
    requires forall x :: x in a <==> x in b
    ensures |a| == 0 <==> |b| == 0
  {
    if |a| > 0 {
      assert a[0] in b;
    }
    if |b| > 0 {
      assert b[0] in a;
    }
  }

  /** Two non-empty sequences with strictly increasing f1 and the same elements end alike. */
  lemma LastsEqual(a: seq<Point>, b: seq<Point>)
    requires IncreasingF1(a) && IncreasingF1(b) && |a| > 0 && |b| > 0
    requires forall x :: x in a <==> x in b
    ensures a[|a| - 1] == b[|b| - 1]
  {
    var la, lb := a[|a| - 1], b[|b| - 1];
    assert la in b;
    var j :| 0 <= j < |b| && b[j] == la;
    assert lb in a;
    var i :| 0 <= i < |a| && a[i] == lb;
    assert la.f1 <= lb.f1 && lb.f1 <= la.f1;
  }

  /** Dropping a common last point keeps the elements the same. */
  lemma DropLastSameMembers(a: seq<Point>, b: seq<Point>, x: Point)
    requires IncreasingF1(a) && IncreasingF1(b) && |a| > 0 && |b| > 0
    requires forall y :: y in a <==> y in b
    requires a[|a| - 1] == b[|b| - 1]
    ensures x in a[..|a| - 1] <==> x in b[..|b| - 1]
  {
    var a', b' := a[..|a| - 1], b[..|b| - 1];
    if x in a' {
      var k :| 0 <= k < |a'| && a'[k] == x;
      assert x in a && x != a[|a| - 1];
      var m :| 0 <= m < |b| && b[m] == x;
      assert b'[m] == x;
    }
    if x in b' {
      var k :| 0 <= k < |b'| && b'[k] == x;
      assert x in b && x != b[|b| - 1];
      var m :| 0 <= m < |a| && a[m] == x;
      assert a'[m] == x;
    }
  }

  /** Two sequences with strictly increasing f1 and the same elements are equal. */
  lemma {:induction false} IncreasingF1Unique(a: seq<Point>, b: seq<Point>)
    requires IncreasingF1(a) && IncreasingF1(b)
    requires forall x :: x in a <==> x in b
    ensures a == b
  {
    SameMembersSameEmptiness(a, b);
    if |a| > 0 && |b| > 0 {
      LastsEqual(a, b);
      var a', b' := a[..|a| - 1], b[..|b| - 1];
      forall x ensures x in a' <==> x in b' {
        DropLastSameMembers(a, b, x);
      }
      assert IncreasingF1(a') && IncreasingF1(b');
      IncreasingF1Unique(a', b');
      assert a == a' + [a[|a| - 1]] && b == b' + [b[|b| - 1]];
    }
  }

  /** The sorted list has the same points as the input. */
  lemma SortedPoints(points: seq<Point>)
    ensures Sorted(SortBy(points, LexLess), LexLess)
    ensures forall x :: x in SortBy(points, LexLess) <==> x in points
  {
    LexLessIsStrictWeakOrder();
    SortBySorted(points, LexLess);
    forall x ensures x in SortBy(points, LexLess) <==> x in points {
      SortByMembers(points, LexLess, x);
    }
  }

  /** Every point of the front is a point of the list; the front is empty iff the list is. */
  lemma LexFrontSubset(points: seq<Point>)
    ensures (|LexFront(points)| == 0) == (|points| == 0)
    ensures forall k :: 0 <= k < |LexFront(points)| ==> LexFront(points)[k] in points
  {
    SortedPoints(points);
    FrontOfMembers(SortBy(points, LexLess));
  }

  /** Along the front f1 strictly increases and f2 strictly decreases, so no kept point weakly
      dominates another. */
  lemma LexFrontMonotone(points: seq<Point>)
    ensures forall i, j :: 0 <= i < j < |LexFront(points)| ==>
      LexFront(points)[i].f1 < LexFront(points)[j].f1 && LexFront(points)[i].f2 > LexFront(points)[j].f2
    ensures forall i, j :: 0 <= i < |LexFront(points)| && 0 <= j < |LexFront(points)| && i != j ==>
      !WeaklyDominates(LexFront(points)[i], LexFront(points)[j])
  {
    SortedPoints(points);
    FrontIncreasingF1(SortBy(points, LexLess));
    FrontOfFacts(SortBy(points, LexLess));
  }

  /** Every point of the list is weakly dominated by a point of the front. */
  lemma LexFrontCovers(points: seq<Point>, q: Point)
    requires q in points
    ensures exists p :: p in LexFront(points) && WeaklyDominates(p, q)
  {
    var s := SortBy(points, LexLess);
    SortedPoints(points);
    var k :| 0 <= k < |s| && s[k] == q;
    var j := FrontCoversPoint(s, k);
    assert FrontOf(s)[j] in LexFront(points);
  }

  /** A point is on the front iff it is in the list and no other listed point is at least as good
      in both objectives; duplicates are kept once. */
  lemma LexFrontIsNonDominated(points: seq<Point>, x: Point)
    ensures x in LexFront(points) <==> NonDominatedIn(points, x)
  {
    var s := SortBy(points, LexLess);
    SortedPoints(points);
    assert NonDominatedIn(s, x) <==> NonDominatedIn(points, x);
    if x in FrontOf(s) {
      KeptIsNonDominated(s, x);
    }
    if NonDominatedIn(s, x) {
      NonDominatedIsKept(s, x);
    }
  }

  /** Adding a point that a listed point weakly dominates (a duplicate included) leaves the
      front unchanged. */
  lemma DominatedPointLeavesFront(points: seq<Point>, q: Point)
    requires exists p :: p in points && WeaklyDominates(p, q)
    ensures LexFront(points + [q]) == LexFront(points)
  {
    var p :| p in points && WeaklyDominates(p, q);
    var big := points + [q];
    forall x ensures x in LexFront(big) <==> x in LexFront(points) {
      LexFrontIsNonDominated(big, x);
      LexFrontIsNonDominated(points, x);
      if NonDominatedIn(big, x) {
        assert p in big;
        assert x in points;
      }
    }
    LexFrontMonotone(big);
    LexFrontMonotone(points);
    IncreasingF1Unique(LexFront(big), LexFront(points));
  }

  /** The largest f1 of a non-empty list (pandas' column maximum). */
  function MaxF1(points: seq<Point>): (m: real)
    requires |points| > 0
    ensures forall k :: 0 <= k < |points| ==> points[k].f1 <= m
    ensures exists k :: 0 <= k < |points| && points[k].f1 == m
  {
    if |points| == 1 then points[0].f1
    else
      var m := MaxF1(points[..|points| - 1]);
      var last := points[|points| - 1].f1;
      if m < last then last else m
  }

  /** The largest f2 of a non-empty list. */
  function MaxF2(points: seq<Point>): (m: real)
    requires |points| > 0
    ensures forall k :: 0 <= k < |points| ==> points[k].f2 <= m
    ensures exists k :: 0 <= k < |points| && points[k].f2 == m
  {
    if |points| == 1 then points[0].f2
    else
      var m := MaxF2(points[..|points| - 1]);
      var last := points[|points| - 1].f2;
      if m < last then last else m
  }

  /** A rectangle with non-negative sides has non-negative area; the hypervolume sweeps add only
      such rectangles. */
  lemma AreaNonNegative(width: real, height: real)
    ensures width >= 0.0 && height >= 0.0 ==> width * height >= 0.0
  {
  }
}
