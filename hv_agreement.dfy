/** The two hypervolume sweeps agree: on a Pareto front, the tuning script's skip rules select
    exactly the points the statistics script's box filter keeps, so both scripts report the same
    hypervolume for the same points and reference point. */
module HvAgreement {
  import opened Sorting
  import opened Pareto
  import HvStats
  import TuningHv

  /** f2 strictly decreases along the sequence. */
  ghost predicate DecreasingF2(s: seq<Point>)
  {
    forall i, j :: 0 <= i < j < |s| ==> s[i].f2 > s[j].f2
  }

  /** Before each later point of the front that lies below r2, the skip sweep's level is
      not below that point. */
  ghost predicate LevelAbove(front: seq<Point>, r: Point, i: nat)
    requires i <= |front|
  {
    forall k :: i <= k < |front| && front[k].f2 <= r.f2 ==> front[k].f2 <= TuningHv.SkipSweep(front, r, i).level
  }

  /** The statistics sweep with the box filter applied point by point. */
  function BoxSweep(pts: seq<Point>, r: Point, i: nat): Sweep
    requires i <= |pts|
  {
    if i == 0 then Sweep(0.0, r.f2)
    else
      var s := BoxSweep(pts, r, i - 1);
      var p := pts[i - 1];
      if HvStats.InBox(p, r) then HvStats.Step(s, p, r) else s
  }

  /** The statistics sweep from state s over the remaining points, front to back. */
  function StatsRun(s: Sweep, pts: seq<Point>, r: Point): Sweep
    decreases |pts|
  {
    if |pts| == 0 then s else StatsRun(HvStats.Step(s, pts[0], r), pts[1..], r)
  }

  /** The box sweep from state s over the remaining points, front to back. */
  function BoxRun(s: Sweep, pts: seq<Point>, r: Point): Sweep
    decreases |pts|
  {
    if |pts| == 0 then s
    else BoxRun(if HvStats.InBox(pts[0], r) then HvStats.Step(s, pts[0], r) else s, pts[1..], r)
  }

  /** Filtering first and sweeping after is sweeping with the filter applied point by point. */
  lemma {:induction false} BoxRunIsFilteredRun(s: Sweep, pts: seq<Point>, r: Point)
    ensures BoxRun(s, pts, r) == StatsRun(s, HvStats.InBoxPoints(pts, r), r)
    decreases |pts|
  {
    if |pts| > 0 {
      var s' := if HvStats.InBox(pts[0], r) then HvStats.Step(s, pts[0], r) else s;
      BoxRunIsFilteredRun(s', pts[1..], r);
      if HvStats.InBox(pts[0], r) {
        var rest := HvStats.InBoxPoints(pts[1..], r);
        assert ([pts[0]] + rest)[1..] == rest;
      }
    }
  }

  /** Running the statistics sweep on from its state after i points finishes the whole sweep. */
  lemma {:induction false} StatsSweepIsRun(pts: seq<Point>, r: Point, i: nat)
    requires i <= |pts|
    ensures StatsRun(HvStats.StatsSweep(pts, r, i), pts[i..], r) == HvStats.StatsSweep(pts, r, |pts|)
    decreases |pts| - i
  {
    if i < |pts| {
      HvStats.StatsSweepStep(pts, r, i);
      assert pts[i..][0] == pts[i] && pts[i..][1..] == pts[i + 1..];
      StatsSweepIsRun(pts, r, i + 1);
    } else {
      assert pts[i..] == [];
    }
  }

  /** One step of the box sweep, unfolded. */
  lemma BoxSweepStep(pts: seq<Point>, r: Point, i: nat)
    requires i < |pts|
    ensures BoxSweep(pts, r, i + 1) ==
      if HvStats.InBox(pts[i], r) then HvStats.Step(BoxSweep(pts, r, i), pts[i], r) else BoxSweep(pts, r, i)
  {
  }

  /** Running the box sweep on from its state after i points finishes the whole sweep. */
  lemma {:induction false} BoxSweepIsRun(pts: seq<Point>, r: Point, i: nat)
    requires i <= |pts|
    ensures BoxRun(BoxSweep(pts, r, i), pts[i..], r) == BoxSweep(pts, r, |pts|)
    decreases |pts| - i
  {
    if i < |pts| {
      BoxSweepStep(pts, r, i);
      assert pts[i..][1..] == pts[i + 1..];
      BoxSweepIsRun(pts, r, i + 1);
    } else {
      assert pts[i..] == [];
    }
  }

  /** Zero height gives zero area. */
  lemma ZeroHeight(width: real, height: real)
    requires height == 0.0
    ensures width * height == 0.0
  {
  }

  /** From a level at or below r2, the skip step passes over a point outside the box. */
  lemma SkipStepOutOfBox(s: Sweep, x: Point, r: Point)
    requires !HvStats.InBox(x, r) && s.level <= r.f2
    ensures TuningHv.SkipStep(s, x, r) == s
  {
  }

  /** On an in-box point not above the level the skip step adds the rectangle the statistics
      step adds; when the point is level with it, the skip step's rectangle is empty and the
      statistics step adds nothing. */
  lemma SkipStepInBox(s: Sweep, x: Point, r: Point)
    requires HvStats.InBox(x, r) && x.f2 <= s.level
    ensures TuningHv.SkipStep(s, x, r) == Sweep(s.hv + (r.f1 - x.f1) * (s.level - x.f2), x.f2)
    ensures TuningHv.SkipStep(s, x, r) == HvStats.Step(s, x, r)
  {
    if x.f2 == s.level {
      ZeroHeight(r.f1 - x.f1, s.level - x.f2);
    }
  }

  /** One step of both sweeps from the same state. */
  lemma SkipStepIsBoxStep(front: seq<Point>, r: Point, i: nat)
    requires 0 < i <= |front|
    requires TuningHv.SkipSweep(front, r, i - 1) == BoxSweep(front, r, i - 1)
    requires HvStats.InBox(front[i - 1], r) ==> front[i - 1].f2 <= TuningHv.SkipSweep(front, r, i - 1).level
    ensures TuningHv.SkipSweep(front, r, i) == BoxSweep(front, r, i)
  {
    var s := TuningHv.SkipSweep(front, r, i - 1);
    if HvStats.InBox(front[i - 1], r) {
      SkipStepInBox(s, front[i - 1], r);
    } else {
      TuningHv.SkipSweepBounds(front, r, i - 1);
      SkipStepOutOfBox(s, front[i - 1], r);
    }
  }

  /** One point of the front keeps the level above the later in-box points. */
  lemma LevelAboveStep(front: seq<Point>, r: Point, i: nat)
    requires DecreasingF2(front) && 0 < i <= |front|
    requires LevelAbove(front, r, i - 1)
    ensures LevelAbove(front, r, i)
  {
    var s := TuningHv.SkipSweep(front, r, i - 1);
    if HvStats.InBox(front[i - 1], r) {
      SkipStepInBox(s, front[i - 1], r);
    } else {
      TuningHv.SkipSweepBounds(front, r, i - 1);
      SkipStepOutOfBox(s, front[i - 1], r);
    }
  }

  /** Both sweeps agree over every prefix of the front. */
  lemma {:induction false} Agreement(front: seq<Point>, r: Point, i: nat)
    requires DecreasingF2(front) && i <= |front|
    ensures TuningHv.SkipSweep(front, r, i) == BoxSweep(front, r, i) && LevelAbove(front, r, i)
  {
    if i > 0 {
      Agreement(front, r, i - 1);
      SkipStepIsBoxStep(front, r, i);
      LevelAboveStep(front, r, i);
    }
  }

  /** The in-box points of an f1-increasing list are f1-increasing. */
  lemma {:induction false} InBoxPointsIncreasing(pts: seq<Point>, r: Point)
    requires IncreasingF1(pts)
    ensures Sorted(HvStats.InBoxPoints(pts, r), F1Less)
  {
    if |pts| > 0 {
      var rest := HvStats.InBoxPoints(pts[1..], r);
      InBoxPointsIncreasing(pts[1..], r);
      if HvStats.InBox(pts[0], r) {
        forall k | 0 <= k < |rest| ensures pts[0].f1 < rest[k].f1 {
          HvStats.InBoxPointsMembers(pts[1..], r, rest[k]);
          var a :| 0 <= a < |pts[1..]| && pts[1..][a] == rest[k];
          assert pts[a + 1] == rest[k];
        }
        var kept := [pts[0]] + rest;
        forall i, j | 0 <= i < j < |kept| ensures !F1Less(kept[j], kept[i]) {
          if i > 0 {
            assert kept[i] == rest[i - 1] && kept[j] == rest[j - 1];
          }
        }
      }
    }
  }

  /** The tuning script's hypervolume of a non-empty point list equals the statistics script's
      hypervolume of that list's Pareto front. */
  lemma SkipSweepMatchesBoxFilter(points: seq<Point>, r: Point)
    requires |points| > 0
    ensures TuningHv.Hypervolume(points, r) == HvStats.Hypervolume(LexFront(points), r)
  {
    var front := LexFront(points);
    TuningHv.FrontResortIsIdentity(points);
    LexFrontMonotone(points);
    Agreement(front, r, |front|);
    var kept := HvStats.InBoxPoints(front, r);
    InBoxPointsIncreasing(front, r);
    SortByOfSorted(kept, F1Less);
    var init := Sweep(0.0, r.f2);
    BoxSweepIsRun(front, r, 0);
    assert front[0..] == front;
    BoxRunIsFilteredRun(init, front, r);
    StatsSweepIsRun(kept, r, 0);
    assert kept[0..] == kept;
  }
}
