/**
 * `loss_at_rp`: losses at given return periods, read off the exceedance
 * frequency curve by piecewise-linear interpolation on the exceedance
 * frequency (the reciprocal of the return period), as `np.interp` does.
 */
module Interpolation {
  import opened Wrappers
  import opened Yelt
  import opened Ranks
  import opened Curves

  /** `np.interp` needs its x-coordinates, here the metric column, in increasing order. */
  predicate MetricAscending(pts: seq<CurvePoint>)
  {
    forall i, j :: 0 <= i < j < |pts| ==> pts[i].metric < pts[j].metric
  }

  /** The straight line through (x0, y0) and (x1, y1), evaluated at x. */
  function Lerp(x: real, x0: real, y0: real, x1: real, y1: real): real
    requires x0 < x1
  {
    (y1 - y0) / (x1 - x0) * (x - x0) + y0
  }

  /**
   * `np.interp(x, xp, fp, left, right)` with xp the metrics and fp the
   * losses of `pts`: `left` below the first metric, `right` above the
   * last, the point's loss at a metric, and the straight line between two
   * neighbouring points in between.
   */
  function Interp(x: real, pts: seq<CurvePoint>, left: real, right: real): (y: real)
    requires |pts| > 0 && MetricAscending(pts)
    ensures x < pts[0].metric ==> y == left
    ensures x > pts[|pts| - 1].metric ==> y == right
    ensures forall k :: 0 <= k < |pts| && x == pts[k].metric ==> y == pts[k].loss
    decreases |pts|
  {
    if x < pts[0].metric then left
    else if |pts| == 1 then (if x == pts[0].metric then pts[0].loss else right)
    else if x < pts[1].metric then Lerp(x, pts[0].metric, pts[0].loss, pts[1].metric, pts[1].loss)
    else Interp(x, pts[1..], left, right)
  }

  /** Strictly between two neighbouring metrics, `Interp` is the straight line through the two points. */
  lemma {:induction false} InterpBetweenPoints(x: real, pts: seq<CurvePoint>, left: real, right: real, k: nat)
    requires |pts| > 0 && MetricAscending(pts)
    requires k + 1 < |pts| && pts[k].metric < x < pts[k + 1].metric
    ensures Interp(x, pts, left, right)
            == Lerp(x, pts[k].metric, pts[k].loss, pts[k + 1].metric, pts[k + 1].loss)
    decreases k
  {
    if k > 0 {
      assert pts[0].metric < pts[k].metric;
      assert pts[1..][k - 1] == pts[k] && pts[1..][k] == pts[k + 1];
      InterpBetweenPoints(x, pts[1..], left, right, k - 1);
    }
  }

  /** A value on the line lies between the two end values. */
  lemma LerpBetween(x: real, x0: real, y0: real, x1: real, y1: real)
    requires x0 <= x < x1
    ensures y0 <= y1 ==> y0 <= Lerp(x, x0, y0, x1, y1) <= y1
    ensures y1 <= y0 ==> y1 <= Lerp(x, x0, y0, x1, y1) <= y0
  {
    var s := (y1 - y0) / (x1 - x0);
    var d := x - x0;
    assert s * (x1 - x0) == y1 - y0;
    assert 0.0 <= d < x1 - x0;
    if y0 <= y1 {
      assert s >= 0.0;
      assert s * d <= s * (x1 - x0);
    } else {
      assert s <= 0.0;
      assert s * d >= s * (x1 - x0);
    }
  }

  /** `Interp` never leaves a range that holds every loss and both fill values. */
  lemma {:induction false} InterpWithin(x: real, pts: seq<CurvePoint>, left: real, right: real, lo: real, hi: real)
    requires |pts| > 0 && MetricAscending(pts)
    requires forall p :: p in pts ==> lo <= p.loss <= hi
    requires lo <= left <= hi && lo <= right <= hi
    ensures lo <= Interp(x, pts, left, right) <= hi
    decreases |pts|
  {
    assert pts[0] in pts;
    if x < pts[0].metric {
    } else if |pts| == 1 {
    } else if x < pts[1].metric {
      assert pts[1] in pts;
      LerpBetween(x, pts[0].metric, pts[0].loss, pts[1].metric, pts[1].loss);
    } else {
      assert forall p :: p in pts[1..] ==> p in pts;
      InterpWithin(x, pts[1..], left, right, lo, hi);
    }
  }

  /** Once x has reached the first metric, the fill value on the left plays no part. */
  lemma {:induction false} InterpLeftUnused(x: real, pts: seq<CurvePoint>, left1: real, left2: real, right: real)
    requires |pts| > 0 && MetricAscending(pts)
    requires x >= pts[0].metric
    ensures Interp(x, pts, left1, right) == Interp(x, pts, left2, right)
    decreases |pts|
  {
    if |pts| > 1 && x >= pts[1].metric {
      InterpLeftUnused(x, pts[1..], left1, left2, right);
    }
  }

  /** On a segment whose loss falls, the line falls too. */
  lemma LerpAntitone(a: real, b: real, x0: real, y0: real, x1: real, y1: real)
    requires x0 <= a <= b < x1 && y1 <= y0
    ensures Lerp(a, x0, y0, x1, y1) >= Lerp(b, x0, y0, x1, y1)
  {
    var s := (y1 - y0) / (x1 - x0);
    assert s * (x1 - x0) == y1 - y0;
    assert s <= 0.0;
    assert s * (b - a) <= 0.0;
    assert s * (b - x0) == s * (a - x0) + s * (b - a);
  }

  /** The losses never rise along the points. */
  predicate LossDescending(pts: seq<CurvePoint>)
  {
    forall i, j :: 0 <= i < j < |pts| ==> pts[i].loss >= pts[j].loss
  }

  /** Along falling losses every loss lies between the last and the first. */
  lemma LossesBetween(pts: seq<CurvePoint>)
    requires |pts| > 0 && LossDescending(pts)
    ensures forall p :: p in pts ==> pts[|pts| - 1].loss <= p.loss <= pts[0].loss
  {
    forall p | p in pts ensures pts[|pts| - 1].loss <= p.loss <= pts[0].loss {
      var k :| 0 <= k < |pts| && pts[k] == p;
      assert k == 0 || pts[0].loss >= pts[k].loss;
      assert k == |pts| - 1 || pts[k].loss >= pts[|pts| - 1].loss;
    }
  }

  /** From the first metric on, `Interp` along falling losses stays at or below the first loss. */
  lemma InterpBelowFirst(x: real, pts: seq<CurvePoint>, left: real, right: real)
    requires |pts| > 0 && MetricAscending(pts) && LossDescending(pts)
    requires right <= pts[|pts| - 1].loss && x >= pts[0].metric
    ensures Interp(x, pts, left, right) <= pts[0].loss
  {
    InterpLeftUnused(x, pts, left, pts[0].loss, right);
    LossesBetween(pts);
    InterpWithin(x, pts, pts[0].loss, right, right, pts[0].loss);
  }

  /**
   * When the losses fall along the points, and the fill values are at
   * least the first loss on the left and at most the last loss on the
   * right, `Interp` never rises as x grows.
   */
  lemma {:induction false} InterpAntitone(x1: real, x2: real, pts: seq<CurvePoint>, left: real, right: real)
    requires |pts| > 0 && MetricAscending(pts) && LossDescending(pts)
    requires left >= pts[0].loss && right <= pts[|pts| - 1].loss
    requires x1 <= x2
    ensures Interp(x1, pts, left, right) >= Interp(x2, pts, left, right)
    decreases |pts|
  {
    if x1 < pts[0].metric {
      if x2 >= pts[0].metric {
        InterpBelowFirst(x2, pts, left, right);
      }
    } else if |pts| == 1 {
    } else if x1 < pts[1].metric {
      if x2 < pts[1].metric {
        LerpAntitone(x1, x2, pts[0].metric, pts[0].loss, pts[1].metric, pts[1].loss);
      } else {
        LerpBetween(x1, pts[0].metric, pts[0].loss, pts[1].metric, pts[1].loss);
        InterpBelowFirst(x2, pts[1..], left, right);
      }
    } else {
      InterpAntitone(x1, x2, pts[1..], left, right);
    }
  }

  /**
   * The loss at one return period: NaN (None) unless the period is
   * positive, else the curve interpolated at `1 / rp`, with the largest
   * loss for periods beyond the curve and zero for periods below it.
   */
  function LossAtReturnPeriod(pts: seq<CurvePoint>, rp: real): (r: Option<real>)
    requires |pts| > 0 && MetricAscending(pts)
    ensures r.None? <==> rp <= 0.0
    ensures r.Some? && 1.0 / rp <= pts[0].metric ==> r.value == pts[0].loss
    ensures r.Some? && 1.0 / rp > pts[|pts| - 1].metric ==> r.value == 0.0
  {
    if rp <= 0.0 then None else Some(Interp(1.0 / rp, pts, pts[0].loss, 0.0))
  }

  lemma EfCurveAscending(t: YearEventLossTable)
    requires t.nYrs > 0 && |t.records| > 0
    ensures |EfCurve(t)| > 0 && MetricAscending(EfCurve(t))
  {
    EfCurveHead(t);
    EfCurveStrict(t);
  }

  /**
   * `loss_at_rp`: the requested periods are copied into a float buffer,
   * the non-positive ones are overwritten with NaN, and every entry is
   * interpolated on the exceedance frequency curve.
   */
  method LossAtRp(t: YearEventLossTable, returnPeriods: seq<real>) returns (losses: seq<Option<real>>)
    requires t.nYrs > 0 && |t.records| > 0
    ensures |EfCurve(t)| > 0 && MetricAscending(EfCurve(t))
    ensures |losses| == |returnPeriods|
    ensures forall i :: 0 <= i < |returnPeriods| ==>
              losses[i] == LossAtReturnPeriod(EfCurve(t), returnPeriods[i])
  {
    var curve := EfCurve(t);
    EfCurveAscending(t);
    var maxLoss := curve[0].loss;

    var periods := new Option<real>[|returnPeriods|];
    var i := 0;
    while i < periods.Length
      invariant 0 <= i <= periods.Length
      invariant forall k :: 0 <= k < i ==> periods[k] == Some(returnPeriods[k])
    {
      periods[i] := Some(returnPeriods[i]);
      i := i + 1;
    }

    i := 0;
    while i < periods.Length
      invariant 0 <= i <= periods.Length
      invariant forall k :: 0 <= k < i ==>
                  periods[k] == if returnPeriods[k] <= 0.0 then None else Some(returnPeriods[k])
      invariant forall k :: i <= k < periods.Length ==> periods[k] == Some(returnPeriods[k])
    {
      if periods[i].Some? && periods[i].value <= 0.0 {
        periods[i] := None;
      }
      i := i + 1;
    }

    var out := new Option<real>[periods.Length];
    i := 0;
    while i < out.Length
      invariant 0 <= i <= out.Length
      invariant forall k :: 0 <= k < periods.Length ==>
                  periods[k] == if returnPeriods[k] <= 0.0 then None else Some(returnPeriods[k])
      invariant forall k :: 0 <= k < i ==> out[k] == LossAtReturnPeriod(curve, returnPeriods[k])
    {
      match periods[i] {
        case None => out[i] := None;
        case Some(rp) => out[i] := Some(Interp(1.0 / rp, curve, maxLoss, 0.0));
      }
      i := i + 1;
    }
    losses := out[..];
  }

  /** A larger positive number has a smaller reciprocal. */
  lemma ReciprocalAntitone(a: real, b: real)
    requires 0.0 < a <= b
    ensures 0.0 < 1.0 / b <= 1.0 / a
    ensures a < b ==> 1.0 / b < 1.0 / a
  {
    assert (1.0 / b) * b == 1.0 && (1.0 / a) * a == 1.0;
    assert (1.0 / b) * a <= (1.0 / b) * b;
  }

  /**
   * A period is NaN exactly when it is not positive, a frequency before the
   * first point gives the first loss, and one past the last point gives zero.
   */
  lemma LossAtPeriodBounds(pts: seq<CurvePoint>, rp: real)
    requires |pts| > 0 && MetricAscending(pts)
    ensures LossAtReturnPeriod(pts, rp).None? <==> rp <= 0.0
    ensures rp > 0.0 && 1.0 / rp < pts[0].metric ==> LossAtReturnPeriod(pts, rp) == Some(pts[0].loss)
    ensures rp > 0.0 && 1.0 / rp > pts[|pts| - 1].metric ==> LossAtReturnPeriod(pts, rp) == Some(0.0)
  {
  }

  /**
   * On the exceedance frequency curve a period is NaN exactly when it is
   * not positive, periods longer than n_yrs give the largest loss, and
   * periods whose frequency lies past the last point give zero.
   */
  lemma LossAtRpCases(t: YearEventLossTable, rp: real)
    requires t.nYrs > 0 && |t.records| > 0
    ensures |EfCurve(t)| > 0 && MetricAscending(EfCurve(t))
    ensures LossAtReturnPeriod(EfCurve(t), rp).None? <==> rp <= 0.0
    ensures rp > t.nYrs as real ==>
              LossAtReturnPeriod(EfCurve(t), rp) == Some(EfCurve(t)[0].loss)
              && forall r :: r in t.records ==> r.loss <= EfCurve(t)[0].loss
    ensures rp > 0.0 && 1.0 / rp > EfCurve(t)[|EfCurve(t)| - 1].metric ==>
              LossAtReturnPeriod(EfCurve(t), rp) == Some(0.0)
  {
    EfCurveAscending(t);
    EfCurveHead(t);
    LossAtPeriodBounds(EfCurve(t), rp);
    if rp > t.nYrs as real {
      ReciprocalAntitone(t.nYrs as real, rp);
    }
  }

  /** At the return period of a point of the curve, the loss is that point's loss. */
  lemma LossAtPointPeriod(pts: seq<CurvePoint>, k: nat)
    requires |pts| > 0 && MetricAscending(pts)
    requires k < |pts| && pts[k].metric > 0.0
    ensures LossAtReturnPeriod(pts, 1.0 / pts[k].metric) == Some(pts[k].loss)
  {
    PositiveReciprocal(pts[k].metric);
  }

  /** At the return period of a recorded loss, `loss_at_rp` gives back that loss. */
  lemma LossAtRecordedReturnPeriod(t: YearEventLossTable, r: Record)
    requires t.nYrs > 0 && r in t.records
    ensures |EfCurve(t)| > 0 && MetricAscending(EfCurve(t))
    ensures ExFreq(t.records, r.loss, t.nYrs) > 0.0
    ensures LossAtReturnPeriod(EfCurve(t), 1.0 / ExFreq(t.records, r.loss, t.nYrs)) == Some(r.loss)
  {
    var c := EfCurve(t);
    EfCurveAscending(t);
    EfCurveMembers(t);
    var p :| p in c && p.loss == r.loss;
    var k :| 0 <= k < |c| && c[k] == p;
    ExFreqBounds(t.records, r.loss, t.nYrs);
    LossAtPointPeriod(c, k);
  }

  lemma PositiveReciprocal(m: real)
    requires m > 0.0
    ensures 1.0 / m > 0.0 && 1.0 / (1.0 / m) == m
  {
    assert (1.0 / m) * m == 1.0;
  }

  /**
   * On falling, non-negative losses every result lies between zero and the
   * first loss, and a longer return period never gives a smaller loss.
   */
  lemma LossAtPeriodMonotone(pts: seq<CurvePoint>, rp1: real, rp2: real)
    requires |pts| > 0 && MetricAscending(pts) && LossDescending(pts)
    requires pts[|pts| - 1].loss >= 0.0
    requires 0.0 < rp1 <= rp2
    ensures LossAtReturnPeriod(pts, rp1).Some? && LossAtReturnPeriod(pts, rp2).Some?
    ensures 0.0 <= LossAtReturnPeriod(pts, rp1).value <= pts[0].loss
    ensures LossAtReturnPeriod(pts, rp1).value <= LossAtReturnPeriod(pts, rp2).value
  {
    LossesBetween(pts);
    ReciprocalAntitone(rp1, rp2);
    InterpWithin(1.0 / rp1, pts, pts[0].loss, 0.0, 0.0, pts[0].loss);
    InterpAntitone(1.0 / rp2, 1.0 / rp1, pts, pts[0].loss, 0.0);
  }

  /**
   * With non-negative losses every interpolated loss lies between zero and
   * the largest loss, and a longer return period never gives a smaller loss.
   */
  lemma LossAtRpMonotone(t: YearEventLossTable, rp1: real, rp2: real)
    requires t.nYrs > 0 && |t.records| > 0
    requires forall r :: r in t.records ==> r.loss >= 0.0
    requires 0.0 < rp1 <= rp2
    ensures |EfCurve(t)| > 0 && MetricAscending(EfCurve(t))
    ensures LossAtReturnPeriod(EfCurve(t), rp1).Some? && LossAtReturnPeriod(EfCurve(t), rp2).Some?
    ensures 0.0 <= LossAtReturnPeriod(EfCurve(t), rp1).value <= EfCurve(t)[0].loss
    ensures LossAtReturnPeriod(EfCurve(t), rp1).value <= LossAtReturnPeriod(EfCurve(t), rp2).value
  {
    var c := EfCurve(t);
    EfCurveAscending(t);
    EfCurveStrict(t);
    EfCurveMembers(t);
    assert LossDescending(c);
    var last := c[|c| - 1];
    assert last in c;
    var r :| r in t.records && r.loss == last.loss;
    LossAtPeriodMonotone(c, rp1, rp2);
  }
}
