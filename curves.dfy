/**
 * The curve builders `to_ef_curve` and `to_severity_curve`.  Each pairs
 * every loss with its rank metric, sorts the rows by one multi-key
 * comparator, and, unless the keys are kept, drops the key columns and the
 * duplicate rows that remain.  A curve is a sequence: the position of a row
 * in it is its `Order`, running from 0 to the number of rows less one.
 *
 * `EfTable`/`SeverityTable` are the curves with `keep_index=True`;
 * `EfCurve`/`SeverityCurve` are the curves with `keep_index=False`.
 */
module Curves {
  import opened Yelt
  import opened Ranks
  import opened Sorting

  /** A curve row with its keys kept: Year, EventID, DayOfYear, Loss and the metric. */
  datatype CurveRow = CurveRow(loss: real, metric: real, year: int, eventId: int, day: int)

  /** A curve row once the key columns are dropped. */
  datatype CurvePoint = CurvePoint(loss: real, metric: real)

  /** The EF comparator: Loss descending, ExFreq ascending, Year descending, DayOfYear descending. */
  predicate EfLeq(a: CurveRow, b: CurveRow)
  {
    || a.loss > b.loss
    || (a.loss == b.loss && a.metric < b.metric)
    || (a.loss == b.loss && a.metric == b.metric && a.year > b.year)
    || (a.loss == b.loss && a.metric == b.metric && a.year == b.year && a.day >= b.day)
  }

  /** The severity comparator: Loss, CProb, Year and DayOfYear, all ascending. */
  predicate SeverityLeq(a: CurveRow, b: CurveRow)
  {
    || a.loss < b.loss
    || (a.loss == b.loss && a.metric < b.metric)
    || (a.loss == b.loss && a.metric == b.metric && a.year < b.year)
    || (a.loss == b.loss && a.metric == b.metric && a.year == b.year && a.day <= b.day)
  }

  predicate LossAtLeast(p: CurvePoint, q: CurvePoint)
  {
    p.loss >= q.loss
  }

  predicate LossAtMost(p: CurvePoint, q: CurvePoint)
  {
    p.loss <= q.loss
  }

  /** Some record has loss `x`. */
  ghost predicate LossRecorded(rs: seq<Record>, x: real)
  {
    exists r :: r in rs && r.loss == x
  }

  ghost predicate RowOfLoss(rows: seq<CurveRow>, x: real)
  {
    exists row :: row in rows && row.loss == x
  }

  ghost predicate PointOfLoss(ps: seq<CurvePoint>, x: real)
  {
    exists p :: p in ps && p.loss == x
  }

  lemma EfLeqIsTotalPreorder()
    ensures TotalPreorder(EfLeq)
  {
  }

  lemma SeverityLeqIsTotalPreorder()
    ensures TotalPreorder(SeverityLeq)
  {
  }

  /** Each record's row before sorting, with the metric `metric` of its loss. */
  function EfRows(t: YearEventLossTable): (rows: seq<CurveRow>)
    requires t.nYrs > 0
    ensures |rows| == |t.records|
  {
    seq(|t.records|, i requires 0 <= i < |t.records| =>
      CurveRow(t.records[i].loss, ExFreq(t.records, t.records[i].loss, t.nYrs),
               t.records[i].year, t.records[i].eventId, t.records[i].day))
  }

  function SeverityRows(t: YearEventLossTable): (rows: seq<CurveRow>)
    ensures |rows| == |t.records|
  {
    seq(|t.records|, i requires 0 <= i < |t.records| =>
      CurveRow(t.records[i].loss, CProb(t.records, t.records[i].loss),
               t.records[i].year, t.records[i].eventId, t.records[i].day))
  }

  /** `to_ef_curve(keep_index=True)`: every record's row, sorted by the EF comparator. */
  function EfTable(t: YearEventLossTable): (r: seq<CurveRow>)
    requires t.nYrs > 0
    ensures Sorted(r, EfLeq)
    ensures multiset(r) == multiset(EfRows(t))
  {
    EfLeqIsTotalPreorder();
    Sort(EfRows(t), EfLeq)
  }

  /** `to_severity_curve(keep_index=True)`: every record's row, sorted by the severity comparator. */
  function SeverityTable(t: YearEventLossTable): (r: seq<CurveRow>)
    ensures Sorted(r, SeverityLeq)
    ensures multiset(r) == multiset(SeverityRows(t))
  {
    SeverityLeqIsTotalPreorder();
    Sort(SeverityRows(t), SeverityLeq)
  }

  /** `drop(INDEX_NAMES, axis=1)`: only the loss and the metric. */
  function Points(rows: seq<CurveRow>): (ps: seq<CurvePoint>)
    ensures |ps| == |rows|
    ensures forall i :: 0 <= i < |rows| ==> ps[i] == CurvePoint(rows[i].loss, rows[i].metric)
  {
    seq(|rows|, i requires 0 <= i < |rows| => CurvePoint(rows[i].loss, rows[i].metric))
  }

  /** `to_ef_curve(keep_index=False)`. */
  function EfCurve(t: YearEventLossTable): (c: seq<CurvePoint>)
    requires t.nYrs > 0
    ensures Distinct(c) && |c| <= |t.records|
    ensures |c| > 0 <==> |t.records| > 0
  {
    var pts := Points(EfTable(t));
    assert |pts| == |multiset(EfTable(t))| == |EfRows(t)|;
    assert |pts| > 0 ==> pts[0] in pts;
    Dedup(pts)
  }

  /** `to_severity_curve(keep_index=False)`. */
  function SeverityCurve(t: YearEventLossTable): (c: seq<CurvePoint>)
    ensures Distinct(c) && |c| <= |t.records|
    ensures |c| > 0 <==> |t.records| > 0
  {
    var pts := Points(SeverityTable(t));
    assert |pts| == |multiset(SeverityTable(t))| == |SeverityRows(t)|;
    assert |pts| > 0 ==> pts[0] in pts;
    Dedup(pts)
  }

  // ---------------------------------------------------------------------
  // What the rows hold
  // ---------------------------------------------------------------------

  /** Every EF row carries a record's loss and the exceedance frequency of that loss, and every record has a row. */
  lemma EfRowsMembers(t: YearEventLossTable)
    requires t.nYrs > 0
    ensures forall row :: row in EfRows(t) ==>
              row.metric == ExFreq(t.records, row.loss, t.nYrs)
              && LossRecorded(t.records, row.loss)
    ensures forall r :: r in t.records ==> RowOfLoss(EfRows(t), r.loss)
  {
    var rows := EfRows(t);
    forall row | row in rows
      ensures LossRecorded(t.records, row.loss)
    {
      var i :| 0 <= i < |rows| && rows[i] == row;
      assert t.records[i] in t.records;
    }
    forall r | r in t.records
      ensures RowOfLoss(rows, r.loss)
    {
      var i :| 0 <= i < |t.records| && t.records[i] == r;
      assert rows[i] in rows;
    }
  }

  lemma SeverityRowsMembers(t: YearEventLossTable)
    ensures forall row :: row in SeverityRows(t) ==>
              |t.records| > 0
              && row.metric == CProb(t.records, row.loss)
              && LossRecorded(t.records, row.loss)
    ensures forall r :: r in t.records ==> RowOfLoss(SeverityRows(t), r.loss)
  {
    var rows := SeverityRows(t);
    forall row | row in rows
      ensures |t.records| > 0 && LossRecorded(t.records, row.loss)
    {
      var i :| 0 <= i < |rows| && rows[i] == row;
      assert t.records[i] in t.records;
    }
    forall r | r in t.records
      ensures RowOfLoss(rows, r.loss)
    {
      var i :| 0 <= i < |t.records| && t.records[i] == r;
      assert rows[i] in rows;
    }
  }

  /** The points are the (loss, metric) pairs of the rows. */
  lemma PointsMembers(rows: seq<CurveRow>)
    ensures forall p :: p in Points(rows) <==> exists row :: row in rows && p == CurvePoint(row.loss, row.metric)
  {
    var ps := Points(rows);
    forall p | p in ps
      ensures exists row :: row in rows && p == CurvePoint(row.loss, row.metric)
    {
      var i :| 0 <= i < |ps| && ps[i] == p;
      assert rows[i] in rows;
    }
    forall row | row in rows
      ensures CurvePoint(row.loss, row.metric) in ps
    {
      var i :| 0 <= i < |rows| && rows[i] == row;
      assert ps[i] == CurvePoint(row.loss, row.metric);
    }
  }

  /** Sorting and dropping duplicates keep exactly the (loss, metric) pairs of the rows. */
  lemma CurveOfRows(s: seq<CurveRow>, rows: seq<CurveRow>)
    requires multiset(s) == multiset(rows)
    ensures forall p :: p in Dedup(Points(s)) <==> exists row :: row in rows && p == CurvePoint(row.loss, row.metric)
  {
    PointsMembers(s);
    forall row ensures row in s <==> row in rows {
      assert row in s <==> row in multiset(s);
      assert row in rows <==> row in multiset(rows);
    }
  }

  // ---------------------------------------------------------------------
  // Curves with their keys
  // ---------------------------------------------------------------------

  /**
   * Along the EF curve with keys, Loss never increases and ExFreq never
   * decreases; it has one row per record.
   */
  lemma EfTableMonotone(t: YearEventLossTable)
    requires t.nYrs > 0
    ensures |EfTable(t)| == |t.records|
    ensures forall i, j :: 0 <= i < j < |EfTable(t)| ==>
              EfTable(t)[i].loss >= EfTable(t)[j].loss && EfTable(t)[i].metric <= EfTable(t)[j].metric
  {
    var s := EfTable(t);
    assert |s| == |multiset(s)| == |multiset(EfRows(t))| == |t.records|;
    EfRowsMembers(t);
    forall i, j | 0 <= i < j < |s|
      ensures s[i].loss >= s[j].loss && s[i].metric <= s[j].metric
    {
      assert EfLeq(s[i], s[j]);
      assert s[i] in multiset(EfRows(t)) && s[j] in multiset(EfRows(t));
      ExFreqAntitone(t.records, s[j].loss, s[i].loss, t.nYrs);
    }
  }

  /**
   * Along the severity curve with keys, Loss and CProb never decrease; it
   * has one row per record.
   */
  lemma SeverityTableMonotone(t: YearEventLossTable)
    ensures |SeverityTable(t)| == |t.records|
    ensures forall i, j :: 0 <= i < j < |SeverityTable(t)| ==>
              SeverityTable(t)[i].loss <= SeverityTable(t)[j].loss
              && SeverityTable(t)[i].metric <= SeverityTable(t)[j].metric
  {
    var s := SeverityTable(t);
    assert |s| == |multiset(s)| == |multiset(SeverityRows(t))| == |t.records|;
    SeverityRowsMembers(t);
    forall i, j | 0 <= i < j < |s|
      ensures s[i].loss <= s[j].loss && s[i].metric <= s[j].metric
    {
      assert SeverityLeq(s[i], s[j]);
      assert s[i] in multiset(SeverityRows(t)) && s[j] in multiset(SeverityRows(t));
      CProbMonotone(t.records, s[i].loss, s[j].loss);
    }
  }

  // ---------------------------------------------------------------------
  // Curves without their keys
  // ---------------------------------------------------------------------

  /** The points of the EF curve: each a recorded loss with its exceedance frequency, each recorded loss present. */
  lemma EfCurveMembers(t: YearEventLossTable)
    requires t.nYrs > 0
    ensures forall p :: p in EfCurve(t) ==>
              p.metric == ExFreq(t.records, p.loss, t.nYrs)
              && LossRecorded(t.records, p.loss)
    ensures forall r :: r in t.records ==> PointOfLoss(EfCurve(t), r.loss)
  {
    var c := EfCurve(t);
    CurveOfRows(EfTable(t), EfRows(t));
    EfRowsMembers(t);
    forall p | p in c
      ensures p.metric == ExFreq(t.records, p.loss, t.nYrs)
      ensures LossRecorded(t.records, p.loss)
    {
      var row :| row in EfRows(t) && p == CurvePoint(row.loss, row.metric);
    }
    forall r | r in t.records
      ensures PointOfLoss(c, r.loss)
    {
      var row :| row in EfRows(t) && row.loss == r.loss;
      assert CurvePoint(row.loss, row.metric) in c;
    }
  }

  /**
   * `to_ef_curve(keep_index=False)` keeps one point per distinct recorded
   * loss: Loss strictly decreases and ExFreq strictly increases along it.
   */
  lemma EfCurveStrict(t: YearEventLossTable)
    requires t.nYrs > 0
    ensures forall i, j :: 0 <= i < j < |EfCurve(t)| ==>
              EfCurve(t)[i].loss > EfCurve(t)[j].loss && EfCurve(t)[i].metric < EfCurve(t)[j].metric
  {
    var s := EfTable(t);
    var ps := Points(s);
    var c := EfCurve(t);
    assert Sorted(ps, LossAtLeast) by {
      forall i, j | 0 <= i < j < |ps| ensures LossAtLeast(ps[i], ps[j]) {
        assert EfLeq(s[i], s[j]);
      }
    }
    DedupSorted(ps, LossAtLeast);
    EfCurveMembers(t);
    forall i, j | 0 <= i < j < |c|
      ensures c[i].loss > c[j].loss && c[i].metric < c[j].metric
    {
      assert LossAtLeast(c[i], c[j]);
      assert c[i] in c && c[j] in c;
      assert c[i] != c[j];
      ExFreqAntitone(t.records, c[j].loss, c[i].loss, t.nYrs);
    }
  }

  /**
   * The first point of the EF curve is the largest loss, with exceedance
   * frequency 1/n_yrs.
   */
  lemma EfCurveHead(t: YearEventLossTable)
    requires t.nYrs > 0 && |t.records| > 0
    ensures |EfCurve(t)| > 0
    ensures forall r :: r in t.records ==> r.loss <= EfCurve(t)[0].loss
    ensures EfCurve(t)[0].metric == 1.0 / t.nYrs as real
  {
    var c := EfCurve(t);
    EfCurveMembers(t);
    EfCurveStrict(t);
    assert t.records[0] in t.records;
    forall r | r in t.records ensures r.loss <= c[0].loss {
      var p :| p in c && p.loss == r.loss;
      var k :| 0 <= k < |c| && c[k] == p;
      assert k == 0 || c[0].loss > c[k].loss;
    }
    assert c[0] in c;
    ExFreqOfLargest(t.records, c[0].loss, t.nYrs);
  }

  lemma SeverityCurveMembers(t: YearEventLossTable)
    ensures forall p :: p in SeverityCurve(t) ==>
              |t.records| > 0
              && p.metric == CProb(t.records, p.loss)
              && LossRecorded(t.records, p.loss)
    ensures forall r :: r in t.records ==> PointOfLoss(SeverityCurve(t), r.loss)
  {
    var c := SeverityCurve(t);
    CurveOfRows(SeverityTable(t), SeverityRows(t));
    SeverityRowsMembers(t);
    forall p | p in c
      ensures |t.records| > 0 && p.metric == CProb(t.records, p.loss)
      ensures LossRecorded(t.records, p.loss)
    {
      var row :| row in SeverityRows(t) && p == CurvePoint(row.loss, row.metric);
    }
    SeverityCurveCovers(t);
  }

  /** Every recorded loss has a point on the severity curve. */
  lemma SeverityCurveCovers(t: YearEventLossTable)
    ensures forall r :: r in t.records ==> PointOfLoss(SeverityCurve(t), r.loss)
  {
    var c := SeverityCurve(t);
    CurveOfRows(SeverityTable(t), SeverityRows(t));
    SeverityRowsMembers(t);
    forall r | r in t.records
      ensures PointOfLoss(c, r.loss)
    {
      var row :| row in SeverityRows(t) && row.loss == r.loss;
      assert CurvePoint(row.loss, row.metric) in c;
    }
  }

  /**
   * `to_severity_curve(keep_index=False)` keeps one point per distinct
   * recorded loss: Loss and CProb strictly increase along it.
   */
  lemma SeverityCurveStrict(t: YearEventLossTable)
    ensures forall i, j :: 0 <= i < j < |SeverityCurve(t)| ==>
              SeverityCurve(t)[i].loss < SeverityCurve(t)[j].loss
              && SeverityCurve(t)[i].metric < SeverityCurve(t)[j].metric
  {
    var s := SeverityTable(t);
    var ps := Points(s);
    var c := SeverityCurve(t);
    assert Sorted(ps, LossAtMost) by {
      forall i, j | 0 <= i < j < |ps| ensures LossAtMost(ps[i], ps[j]) {
        assert SeverityLeq(s[i], s[j]);
      }
    }
    DedupSorted(ps, LossAtMost);
    SeverityCurveMembers(t);
    forall i, j | 0 <= i < j < |c|
      ensures c[i].loss < c[j].loss && c[i].metric < c[j].metric
    {
      assert LossAtMost(c[i], c[j]);
      assert c[i] in c && c[j] in c;
      assert c[i] != c[j];
      CProbMonotone(t.records, c[i].loss, c[j].loss);
    }
  }

  /** The last point of the severity curve holds the largest loss. */
  lemma SeverityCurveLastIsMax(t: YearEventLossTable)
    requires |t.records| > 0
    ensures |SeverityCurve(t)| > 0
    ensures forall r :: r in t.records ==> r.loss <= SeverityCurve(t)[|SeverityCurve(t)| - 1].loss
  {
    var c := SeverityCurve(t);
    SeverityCurveCovers(t);
    SeverityCurveStrict(t);
    assert t.records[0] in t.records;
    var last := |c| - 1;
    forall r | r in t.records ensures r.loss <= c[last].loss {
      var p :| p in c && p.loss == r.loss;
      var k :| 0 <= k < |c| && c[k] == p;
      assert k == last || c[k].loss < c[last].loss;
    }
  }

  /** The last point of the severity curve is the largest loss, with cumulative probability 1. */
  lemma SeverityCurveLast(t: YearEventLossTable)
    requires |t.records| > 0
    ensures |SeverityCurve(t)| > 0
    ensures forall r :: r in t.records ==> r.loss <= SeverityCurve(t)[|SeverityCurve(t)| - 1].loss
    ensures SeverityCurve(t)[|SeverityCurve(t)| - 1].metric == 1.0
  {
    var c := SeverityCurve(t);
    SeverityCurveLastIsMax(t);
    var p := c[|c| - 1];
    assert p in c;
    SeverityCurveMembers(t);
    CProbOfLargest(t.records, p.loss);
  }
}
