/** The Pareto filter, the hypervolume and the reference point of the per-run statistics script
    (results/hv_and_stats.py). Its hypervolume keeps the points inside the reference box, sorts
    them by f1 and sweeps with a strictly falling height level. */
module HvStats {
  import opened Sorting
  import opened Pareto

  /** `nondominated_2d`: sorts in tuple order, then keeps each point whose f2 is below the best f2
      kept so far. */
  method NonDominated2D(points: seq<Point>) returns (nd: seq<Point>)
    ensures nd == LexFront(points)
  {
    nd := KeepBelowBest(SortBy(points, LexLess));
  }

  /** The point lies in the box below the reference point, boundary included. */
  predicate InBox(p: Point, r: Point)
  {
    p.f1 <= r.f1 && p.f2 <= r.f2
  }

  /** The list comprehension keeping the in-box points, in order. */
  function InBoxPoints(pts: seq<Point>, r: Point): seq<Point>
  {
    if |pts| == 0 then []
    else
      var rest := InBoxPoints(pts[1..], r);
      if InBox(pts[0], r) then [pts[0]] + rest else rest
  }

  /** Every kept point is in the box. */
  lemma {:induction false} InBoxPointsInBox(pts: seq<Point>, r: Point)
    ensures forall k :: 0 <= k < |InBoxPoints(pts, r)| ==> InBox(InBoxPoints(pts, r)[k], r)
  {
    if |pts| > 0 {
      InBoxPointsInBox(pts[1..], r);
    }
  }

  /** The comprehension keeps exactly the in-box points of the list. */
  lemma {:induction false} InBoxPointsMembers(pts: seq<Point>, r: Point, x: Point)
    ensures x in InBoxPoints(pts, r) <==> x in pts && InBox(x, r)
  {
    if |pts| > 0 {
      InBoxPointsMembers(pts[1..], r, x);
      assert pts == [pts[0]] + pts[1..];
    }
  }

  /** The comprehension distributes over concatenation. */
  lemma {:induction false} InBoxPointsAppend(a: seq<Point>, b: seq<Point>, r: Point)
    ensures InBoxPoints(a + b, r) == InBoxPoints(a, r) + InBoxPoints(b, r)
  {
    if |a| > 0 {
      assert (a + b)[1..] == a[1..] + b;
      InBoxPointsAppend(a[1..], b, r);
    } else {
      assert a + b == b;
    }
  }

  /** One step of the sweep: a point strictly below the level adds the rectangle
      (r1 - f1) * (level - f2) and lowers the level to its f2; any other point changes nothing. */
  function Step(s: Sweep, p: Point, r: Point): Sweep
  {
    if p.f2 < s.level then Sweep(s.hv + (r.f1 - p.f1) * (s.level - p.f2), p.f2) else s
  }

  /** The sweep over the first i points, starting from area 0 and level r2. */
  function StatsSweep(pts: seq<Point>, r: Point, i: nat): Sweep
    requires i <= |pts|
  {
    if i == 0 then Sweep(0.0, r.f2) else Step(StatsSweep(pts, r, i - 1), pts[i - 1], r)
  }

  /** One step never raises the level, and an in-box point's rectangle is non-negative, so the
      step never shrinks the area. */
  lemma StatsSweepMonotone(pts: seq<Point>, r: Point, i: nat)
    requires 0 < i <= |pts|
    ensures StatsSweep(pts, r, i).level <= StatsSweep(pts, r, i - 1).level
    ensures pts[i - 1].f1 <= r.f1 ==> StatsSweep(pts, r, i).hv >= StatsSweep(pts, r, i - 1).hv
  {
    var s := StatsSweep(pts, r, i - 1);
    var p := pts[i - 1];
    AreaNonNegative(r.f1 - p.f1, s.level - p.f2);
  }

  /** The level starts at r2 and never rises above it; over in-box points the area is never
      negative. */
  lemma {:induction false} StatsSweepBounds(pts: seq<Point>, r: Point, i: nat)
    requires i <= |pts|
    ensures StatsSweep(pts, r, i).level <= r.f2
    ensures (forall k :: 0 <= k < i ==> pts[k].f1 <= r.f1) ==> StatsSweep(pts, r, i).hv >= 0.0
  {
    if i > 0 {
      StatsSweepBounds(pts, r, i - 1);
      StatsSweepMonotone(pts, r, i);
    }
  }

  /** One step of the sweep, unfolded. */
  lemma StatsSweepStep(pts: seq<Point>, r: Point, i: nat)
    requires i < |pts|
    ensures StatsSweep(pts, r, i + 1) == Step(StatsSweep(pts, r, i), pts[i], r)
  {
  }

  /** `hypervolume_2d_min` of the statistics script. */
  function Hypervolume(ndPoints: seq<Point>, r: Point): real
  {
    var pts := InBoxPoints(ndPoints, r);
    if |pts| == 0 then 0.0
    else StatsSweep(SortBy(pts, F1Less), r, |pts|).hv
  }

  /** `hypervolume_2d_min`: filters to the box, returns 0.0 when nothing is left, sorts by f1 and
      sweeps. */
  method Hypervolume2DMin(ndPoints: seq<Point>, r: Point) returns (hv: real)
    ensures hv == Hypervolume(ndPoints, r)
  {
    var pts := InBoxPoints(ndPoints, r);
    if |pts| == 0 {
      return 0.0;
    }
    hv := SweepRectangles(SortBy(pts, F1Less), r);
  }

  /** The loop of `hypervolume_2d_min`: starting from area 0 and level r2, each point strictly
      below the level adds the rectangle (r1 - f1) * (level - f2) and lowers the level to f2. */
  method SweepRectangles(pts: seq<Point>, r: Point) returns (hv: real)
    ensures hv == StatsSweep(pts, r, |pts|).hv
  {
    var r1, r2 := r.f1, r.f2;
    hv := 0.0;
    var curY := r2;
    for i := 0 to |pts|
      invariant Sweep(hv, curY) == StatsSweep(pts, r, i)
    {
      var f1, f2 := pts[i].f1, pts[i].f2;
      StatsSweepStep(pts, r, i);
      if f2 < curY {
        hv := hv + (r1 - f1) * (curY - f2);
        curY := f2;
      }
    }
  }

  /** The hypervolume is never negative. */
  lemma HypervolumeNonNegative(ndPoints: seq<Point>, r: Point)
    ensures Hypervolume(ndPoints, r) >= 0.0
  {
    var pts := InBoxPoints(ndPoints, r);
    var sorted := SortBy(pts, F1Less);
    InBoxPointsInBox(ndPoints, r);
    forall k | 0 <= k < |sorted| ensures sorted[k].f1 <= r.f1 {
      SortByMembers(pts, F1Less, sorted[k]);
    }
    StatsSweepBounds(sorted, r, |sorted|);
  }

  /** With no point inside the reference box the hypervolume is 0.0. */
  lemma HypervolumeEmptyBox(ndPoints: seq<Point>, r: Point)
    requires forall k :: 0 <= k < |ndPoints| ==> !InBox(ndPoints[k], r)
    ensures Hypervolume(ndPoints, r) == 0.0
  {
    var pts := InBoxPoints(ndPoints, r);
    if |pts| > 0 {
      InBoxPointsMembers(ndPoints, r, pts[0]);
    }
  }

  /** A point outside the reference box contributes nothing, wherever it sits in the list. */
  lemma OutOfBoxIgnored(a: seq<Point>, q: Point, b: seq<Point>, r: Point)
    requires !InBox(q, r)
    ensures Hypervolume(a + [q] + b, r) == Hypervolume(a + b, r)
  {
    InBoxPointsAppend(a + [q], b, r);
    InBoxPointsAppend(a, [q], r);
    InBoxPointsAppend(a, b, r);
    assert InBoxPoints([q], r) == [];
    assert InBoxPoints(a, r) + [] == InBoxPoints(a, r);
  }

  /** A single in-box point sweeps out the rectangle between it and the reference point. */
  lemma SinglePointHypervolume(p: Point, r: Point)
    requires InBox(p, r)
    ensures Hypervolume([p], r) == (r.f1 - p.f1) * (r.f2 - p.f2)
  {
    assert [p][1..] == [];
    assert InBoxPoints([p], r) == [p];
    assert [p][..0] == [];
    assert SortBy([p], F1Less) == [p];
    assert StatsSweep([p], r, 0) == Sweep(0.0, r.f2);
    if p.f2 == r.f2 {
      assert (r.f1 - p.f1) * (r.f2 - p.f2) == 0.0;
    }
  }

  /** `compute_reference_point`: each objective's largest value plus eps. */
  function ComputeReferencePoint(points: seq<Point>, eps: real): (r: Point)
    requires |points| > 0
    ensures exists k :: 0 <= k < |points| && r.f1 == points[k].f1 + eps
    ensures exists k :: 0 <= k < |points| && r.f2 == points[k].f2 + eps
    ensures forall k :: 0 <= k < |points| ==> points[k].f1 + eps <= r.f1 && points[k].f2 + eps <= r.f2
  {
    Point(MaxF1(points) + eps, MaxF2(points) + eps)
  }

  /** With eps > 0 the reference point is strictly worse than every observed point. */
  lemma ReferencePointAboveAll(points: seq<Point>, eps: real)
    requires |points| > 0 && eps > 0.0
    ensures forall k :: 0 <= k < |points| ==>
      points[k].f1 < ComputeReferencePoint(points, eps).f1 && points[k].f2 < ComputeReferencePoint(points, eps).f2
  {
  }
}
