/** The Pareto filter, the hypervolume and the reference point of the final-evaluation script
    (results/eval_hv_analysis.py). The script declares them to be the functions of the tuning
    script; each of its methods here is proved to compute what the tuning script's specification
    says, on every input. */
module EvalHv {
  import opened Sorting
  import opened Pareto
  import TuningHv

  /** `pareto_nd_min`: sorts the tuples, then keeps each point whose f2 is below the best f2 kept
      so far. */
  method ParetoNdMin(points: seq<Point>) returns (nd: seq<Point>)
    ensures nd == LexFront(points)
  {
    nd := KeepBelowBest(SortBy(points, LexLess));
  }

  /** `hypervolume_2d_min`: the same result as the tuning script's hypervolume on every input. Its
      loop is the tuning script's loop, so it runs `TuningHv.SkipRectangles`. */
  method Hypervolume2DMin(points: seq<Point>, r: Point) returns (hv: real)
    ensures hv == TuningHv.Hypervolume(points, r)
  {
    if |points| == 0 {
      return 0.0;
    }
    var nd := ParetoNdMin(points);
    nd := SortBy(nd, F1Less);
    hv := TuningHv.SkipRectangles(nd, r);
  }

  /** The evaluation reference point R = (max f1 + 1, max f2 + 1): the tuning script's rule
      applied to the evaluation data, so every data point lies strictly inside it. */
  function ReferencePoint(points: seq<Point>): (r: Point)
    requires |points| > 0
    ensures r == TuningHv.ReferencePoint(points)
    ensures forall k :: 0 <= k < |points| ==> points[k].f1 < r.f1 && points[k].f2 < r.f2
  {
    Point(MaxF1(points) + 1.0, MaxF2(points) + 1.0)
  }
}
