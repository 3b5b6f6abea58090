/** The Pareto filter, the hypervolume and the reference point of the tuning-analysis script
    (results/tuning_hv_analysis.py). Its hypervolume takes the Pareto front of the points, sorts it
    by f1 and sweeps with skip rules instead of a box filter. */
module TuningHv {
  import opened Sorting
  import opened Pareto

  /** `pareto_nd_min`: sorts the tuples, then keeps each point whose f2 is below the best f2 kept
      so far. */
  method ParetoNdMin(points: seq<Point>) returns (nd: seq<Point>)
    ensures nd == LexFront(points)
  {
    nd := KeepBelowBest(SortBy(points, LexLess));
  }

  /** One step of the sweep: a point with f1 > R1 or f2 above the level is skipped, so is one
      whose width R1 - f1 or height level - f2 is negative; any other point adds width * height
      and sets the level to its f2. */
  function SkipStep(s: Sweep, p: Point, r: Point): Sweep
  {
    if p.f1 > r.f1 || p.f2 > s.level then s
    else
      var width := r.f1 - p.f1;
      var height := s.level - p.f2;
      if width < 0.0 || height < 0.0 then s
      else Sweep(s.hv + width * height, p.f2)
  }

  /** The sweep over the first i points, starting from area 0 and level R2. */
  function SkipSweep(pts: seq<Point>, r: Point, i: nat): Sweep
    requires i <= |pts|
  {
    if i == 0 then Sweep(0.0, r.f2) else SkipStep(SkipSweep(pts, r, i - 1), pts[i - 1], r)
  }

  /** One step never raises the level and never shrinks the area; a point past R1 or above the
      level leaves the state as it was. */
  lemma SkipSweepMonotone(pts: seq<Point>, r: Point, i: nat)
    requires 0 < i <= |pts|
    ensures SkipSweep(pts, r, i).level <= SkipSweep(pts, r, i - 1).level
    ensures SkipSweep(pts, r, i).hv >= SkipSweep(pts, r, i - 1).hv
    ensures pts[i - 1].f1 > r.f1 || pts[i - 1].f2 > SkipSweep(pts, r, i - 1).level ==>
      SkipSweep(pts, r, i) == SkipSweep(pts, r, i - 1)
  {
    var s := SkipSweep(pts, r, i - 1);
    var p := pts[i - 1];
    AreaNonNegative(r.f1 - p.f1, s.level - p.f2);
  }

  /** The level starts at R2 and never rises above it, and the area is never negative, whatever
      the points. */
  lemma {:induction false} SkipSweepBounds(pts: seq<Point>, r: Point, i: nat)
    requires i <= |pts|
    ensures SkipSweep(pts, r, i).level <= r.f2
    ensures SkipSweep(pts, r, i).hv >= 0.0
  {
    if i > 0 {
      SkipSweepBounds(pts, r, i - 1);
      SkipSweepMonotone(pts, r, i);
    }
  }

  /** `hypervolume_2d_min` of the tuning script. */
  function Hypervolume(points: seq<Point>, r: Point): real
  {
    if |points| == 0 then 0.0
    else
      var nd := SortBy(LexFront(points), F1Less);
      SkipSweep(nd, r, |nd|).hv
  }

  /** `hypervolume_2d_min`: 0.0 for no points; otherwise the Pareto front, sorted by f1, swept. */
  method Hypervolume2DMin(points: seq<Point>, r: Point) returns (hv: real)
    ensures hv == Hypervolume(points, r)
  {
    if |points| == 0 {
      return 0.0;
    }
    var nd := ParetoNdMin(points);
    nd := SortBy(nd, F1Less);
    hv := SkipRectangles(nd, r);
  }

  /** The loop of `hypervolume_2d_min`, with both skip rules. */
  method SkipRectangles(nd: seq<Point>, r: Point) returns (hv: real)
    ensures hv == SkipSweep(nd, r, |nd|).hv
  {
    var r1, r2 := r.f1, r.f2;
    hv := 0.0;
    var prevF2 := r2;
    for i := 0 to |nd|
      invariant Sweep(hv, prevF2) == SkipSweep(nd, r, i)
    {
      var f1, f2 := nd[i].f1, nd[i].f2;
      if f1 > r1 || f2 > prevF2 {
        continue;
      }
      var width := r1 - f1;
      var height := prevF2 - f2;
      if width < 0.0 || height < 0.0 {
        continue;
      }
      hv := hv + width * height;
      prevF2 := f2;
    }
  }

  /** The hypervolume is 0.0 for an empty list and never negative. */
  lemma HypervolumeNonNegative(points: seq<Point>, r: Point)
    ensures |points| == 0 ==> Hypervolume(points, r) == 0.0
    ensures Hypervolume(points, r) >= 0.0
  {
    if |points| > 0 {
      var nd := SortBy(LexFront(points), F1Less);
      SkipSweepBounds(nd, r, |nd|);
    }
  }

  /** The front is already in f1 order, so sorting it again by f1 leaves it unchanged. */
  lemma FrontResortIsIdentity(points: seq<Point>)
    ensures SortBy(LexFront(points), F1Less) == LexFront(points)
  {
    LexFrontMonotone(points);
    SortByOfSorted(LexFront(points), F1Less);
  }

  /** A point that some listed point weakly dominates adds no area. */
  lemma DominatedPointAddsNoArea(points: seq<Point>, q: Point, r: Point)
    requires exists p :: p in points && WeaklyDominates(p, q)
    ensures Hypervolume(points + [q], r) == Hypervolume(points, r)
  {
    DominatedPointLeavesFront(points, q);
  }

  /** A duplicate of a listed point adds no area. */
  lemma DuplicatePointAddsNoArea(points: seq<Point>, q: Point, r: Point)
    requires q in points
    ensures Hypervolume(points + [q], r) == Hypervolume(points, r)
  {
    assert WeaklyDominates(q, q);
    DominatedPointAddsNoArea(points, q, r);
  }

  /** The reference point R = (max f1 + 1, max f2 + 1) of the data. */
  function ReferencePoint(points: seq<Point>): (r: Point)
    requires |points| > 0
    ensures exists k :: 0 <= k < |points| && r.f1 == points[k].f1 + 1.0
    ensures exists k :: 0 <= k < |points| && r.f2 == points[k].f2 + 1.0
    ensures forall k :: 0 <= k < |points| ==> points[k].f1 < r.f1 && points[k].f2 < r.f2
  {
    Point(MaxF1(points) + 1.0, MaxF2(points) + 1.0)
  }
}
