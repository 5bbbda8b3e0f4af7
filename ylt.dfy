/**
 * `to_ylt`: collapse a YELT into a Year-Loss Table with one loss per year,
 * the sum of that year's losses or, for occurrence semantics, their maximum.
 * The grouping result is indexed by year in ascending order and is sparse:
 * a year without records has no entry.
 */
module Ylt {
  import opened Wrappers
  import opened Yelt

  datatype YearLoss = YearLoss(year: int, loss: real)

  predicate YearsAscending(ylt: seq<YearLoss>)
  {
    forall i, j :: 0 <= i < j < |ylt| ==> ylt[i].year < ylt[j].year
  }

  function YearsOf(ylt: seq<YearLoss>): set<int>
  {
    if ylt == [] then {} else {ylt[0].year} + YearsOf(ylt[1..])
  }

  lemma {:induction false} YearsOfMembers(ylt: seq<YearLoss>)
    ensures forall y :: y in YearsOf(ylt) <==> exists k :: 0 <= k < |ylt| && ylt[k].year == y
  {
    if ylt != [] {
      YearsOfMembers(ylt[1..]);
      forall y | y in YearsOf(ylt[1..])
        ensures exists k :: 0 <= k < |ylt| && ylt[k].year == y
      {
        var k :| 0 <= k < |ylt[1..]| && ylt[1..][k].year == y;
        assert ylt[k + 1].year == y;
      }
      forall k | 0 <= k < |ylt| ensures ylt[k].year in YearsOf(ylt) {
        if k > 0 {
          assert ylt[1..][k - 1] == ylt[k];
        }
      }
    }
  }

  /** In a year-ordered table every later entry has a larger year than the first. */
  lemma AscendingTailAbove(ylt: seq<YearLoss>)
    requires YearsAscending(ylt) && ylt != []
    ensures forall y :: y in YearsOf(ylt[1..]) ==> ylt[0].year < y
  {
    YearsOfMembers(ylt[1..]);
    forall y | y in YearsOf(ylt[1..]) ensures ylt[0].year < y {
      var k :| 0 <= k < |ylt[1..]| && ylt[1..][k].year == y;
      assert ylt[k + 1].year == y;
    }
  }

  function RecordYears(rs: seq<Record>): set<int>
  {
    set r | r in rs :: r.year
  }

  /** The loss a table holds for `year`, if it has an entry for it. */
  function Lookup(ylt: seq<YearLoss>, year: int): (r: Option<real>)
    ensures r.Some? <==> year in YearsOf(ylt)
  {
    if ylt == [] then None
    else if ylt[0].year == year then Some(ylt[0].loss)
    else Lookup(ylt[1..], year)
  }

  // ---------------------------------------------------------------------
  // The reference definition: the losses of one year, and their aggregate
  // ---------------------------------------------------------------------

  /** The losses recorded in `year`, in record order. */
  function LossesInYear(rs: seq<Record>, year: int): seq<real>
  {
    if rs == [] then []
    else
      LossesInYear(rs[..|rs| - 1], year)
      + if rs[|rs| - 1].year == year then [rs[|rs| - 1].loss] else []
  }

  function SumOf(s: seq<real>): real
  {
    if s == [] then 0.0 else SumOf(s[..|s| - 1]) + s[|s| - 1]
  }

  function MaxOf(s: seq<real>): (m: real)
    requires s != []
    ensures forall x :: x in s ==> x <= m
    ensures m in s
  {
    if |s| == 1 then s[0]
    else
      var p := s[..|s| - 1];
      assert s == p + [s[|s| - 1]];
      var m := MaxOf(p);
      if s[|s| - 1] > m then s[|s| - 1] else m
  }

  /** The yearly loss `to_ylt` reports for a year whose losses are `s`. */
  function Aggregate(s: seq<real>, isOccurrence: bool): real
    requires s != []
  {
    if isOccurrence then MaxOf(s) else SumOf(s)
  }

  lemma LossesInYearNonEmpty(rs: seq<Record>, year: int)
    ensures LossesInYear(rs, year) != [] <==> year in RecordYears(rs)
  {
    if rs != [] {
      var p := rs[..|rs| - 1];
      assert rs == p + [rs[|rs| - 1]];
      LossesInYearNonEmpty(p, year);
      assert RecordYears(rs) == RecordYears(p) + {rs[|rs| - 1].year};
    }
  }

  // ---------------------------------------------------------------------
  // The grouping, one record at a time
  // ---------------------------------------------------------------------

  function Combine(acc: real, loss: real, isOccurrence: bool): real
  {
    if !isOccurrence then acc + loss else if loss > acc then loss else acc
  }

  /** Adds one loss to a year-ordered table, creating the year's entry if it is new. */
  function AddLoss(ylt: seq<YearLoss>, year: int, loss: real, isOccurrence: bool): (r: seq<YearLoss>)
    requires YearsAscending(ylt)
    ensures YearsAscending(r)
    ensures YearsOf(r) == YearsOf(ylt) + {year}
  {
    if ylt == [] then [YearLoss(year, loss)]
    else if ylt[0].year == year then
      var r := [YearLoss(year, Combine(ylt[0].loss, loss, isOccurrence))] + ylt[1..];
      assert r[1..] == ylt[1..];
      r
    else if year < ylt[0].year then
      var r := [YearLoss(year, loss)] + ylt;
      assert r[1..] == ylt;
      r
    else
      var rest := AddLoss(ylt[1..], year, loss, isOccurrence);
      AddLossBehindHead(ylt, year, rest);
      [ylt[0]] + rest
  }

  /** A year added behind the first entry keeps that entry first. */
  lemma AddLossBehindHead(ylt: seq<YearLoss>, year: int, rest: seq<YearLoss>)
    requires YearsAscending(ylt) && ylt != [] && ylt[0].year < year
    requires YearsAscending(rest) && YearsOf(rest) == YearsOf(ylt[1..]) + {year}
    ensures YearsAscending([ylt[0]] + rest)
    ensures YearsOf([ylt[0]] + rest) == YearsOf(ylt) + {year}
  {
    var r := [ylt[0]] + rest;
    assert r[1..] == rest;
    AscendingTailAbove(ylt);
    YearsOfMembers(rest);
    forall k | 0 <= k < |rest| ensures ylt[0].year < rest[k].year {
      assert rest[k].year in YearsOf(rest);
    }
  }

  /** Adding a loss changes the entry of its own year and no other. */
  lemma {:induction false} AddLossLookup(ylt: seq<YearLoss>, year: int, loss: real, isOccurrence: bool, y: int)
    requires YearsAscending(ylt)
    ensures y != year ==> Lookup(AddLoss(ylt, year, loss, isOccurrence), y) == Lookup(ylt, y)
    ensures y == year ==>
              Lookup(AddLoss(ylt, year, loss, isOccurrence), y)
              == (match Lookup(ylt, year)
                  case None => Some(loss)
                  case Some(acc) => Some(Combine(acc, loss, isOccurrence)))
    decreases |ylt|
  {
    var r := AddLoss(ylt, year, loss, isOccurrence);
    if ylt != [] {
      if ylt[0].year == year {
        assert r[1..] == ylt[1..];
      } else if year < ylt[0].year {
        assert r[1..] == ylt;
        if y == year {
          AscendingTailAbove(ylt);
          assert year !in YearsOf(ylt);
        }
      } else {
        assert r[1..] == AddLoss(ylt[1..], year, loss, isOccurrence);
        AddLossLookup(ylt[1..], year, loss, isOccurrence, y);
      }
    }
  }

  /** `to_ylt(is_occurrence)`: the records grouped by year, in ascending year order. */
  function ToYlt(rs: seq<Record>, isOccurrence: bool): (r: seq<YearLoss>)
    ensures YearsAscending(r)
    ensures YearsOf(r) == RecordYears(rs)
  {
    if rs == [] then []
    else
      var p := rs[..|rs| - 1];
      var x := rs[|rs| - 1];
      assert rs == p + [x];
      assert RecordYears(rs) == RecordYears(p) + {x.year};
      AddLoss(ToYlt(p, isOccurrence), x.year, x.loss, isOccurrence)
  }

  // ---------------------------------------------------------------------
  // Properties
  // ---------------------------------------------------------------------

  /**
   * The entry of every year: absent for a year without records, otherwise
   * the sum of the year's losses, or their maximum for occurrence semantics.
   */
  lemma {:induction false} ToYltLookup(rs: seq<Record>, isOccurrence: bool, year: int)
    ensures Lookup(ToYlt(rs, isOccurrence), year) ==
              if LossesInYear(rs, year) == [] then None
              else Some(Aggregate(LossesInYear(rs, year), isOccurrence))
  {
    if rs != [] {
      var p := rs[..|rs| - 1];
      var x := rs[|rs| - 1];
      var prev := ToYlt(p, isOccurrence);
      ToYltLookup(p, isOccurrence, year);
      AddLossLookup(prev, x.year, x.loss, isOccurrence, year);
      assert ToYlt(rs, isOccurrence) == AddLoss(prev, x.year, x.loss, isOccurrence);
      if year != x.year {
        assert LossesInYear(rs, year) == LossesInYear(p, year);
      } else {
        var s := LossesInYear(p, year);
        assert LossesInYear(rs, year) == s + [x.loss];
        assert (s + [x.loss])[..|s|] == s;
        if s == [] {
          assert s + [x.loss] == [x.loss];
          assert [x.loss][..0] == [];
          assert SumOf([x.loss]) == SumOf([]) + x.loss;
          assert MaxOf([x.loss]) == x.loss;
        } else {
          assert Aggregate(s + [x.loss], isOccurrence) == Combine(Aggregate(s, isOccurrence), x.loss, isOccurrence);
        }
      }
    }
  }

  /** Every year that has a record has exactly one entry, and no other year has one. */
  lemma OneEntryPerYear(rs: seq<Record>, isOccurrence: bool, year: int)
    ensures var ylt := ToYlt(rs, isOccurrence);
            |set i | 0 <= i < |ylt| && ylt[i].year == year| == if year in RecordYears(rs) then 1 else 0
  {
    var ylt := ToYlt(rs, isOccurrence);
    var idx := set i | 0 <= i < |ylt| && ylt[i].year == year;
    YearsOfMembers(ylt);
    if year in RecordYears(rs) {
      var k :| 0 <= k < |ylt| && ylt[k].year == year;
      assert idx == {k} by {
        forall i | i in idx ensures i == k {
          assert !(i < k) && !(k < i);
        }
      }
    } else {
      assert idx == {};
    }
  }

  /** The sum of a year-loss table's losses. */
  function TotalYlt(ylt: seq<YearLoss>): real
  {
    if ylt == [] then 0.0 else ylt[0].loss + TotalYlt(ylt[1..])
  }

  lemma {:induction false} AddLossTotal(ylt: seq<YearLoss>, year: int, loss: real)
    requires YearsAscending(ylt)
    ensures TotalYlt(AddLoss(ylt, year, loss, false)) == TotalYlt(ylt) + loss
    decreases |ylt|
  {
    if ylt != [] && ylt[0].year != year && !(year < ylt[0].year) {
      AddLossTotal(ylt[1..], year, loss);
      assert AddLoss(ylt, year, loss, false) == [ylt[0]] + AddLoss(ylt[1..], year, loss, false);
      assert (([ylt[0]] + AddLoss(ylt[1..], year, loss, false))[1..]) == AddLoss(ylt[1..], year, loss, false);
    } else if ylt != [] && ylt[0].year == year {
      assert AddLoss(ylt, year, loss, false)[1..] == ylt[1..];
    } else if ylt != [] {
      assert AddLoss(ylt, year, loss, false)[1..] == ylt;
    }
  }

  /** The aggregate YLT carries the YELT's whole loss. */
  lemma {:induction false} AggregateYltTotal(rs: seq<Record>)
    ensures TotalYlt(ToYlt(rs, false)) == TotalLoss(rs)
  {
    if rs != [] {
      var p := rs[..|rs| - 1];
      AggregateYltTotal(p);
      AddLossTotal(ToYlt(p, false), rs[|rs| - 1].year, rs[|rs| - 1].loss);
    }
  }

  function CountPositiveOf(s: seq<real>): nat
  {
    if s == [] then 0 else CountPositiveOf(s[..|s| - 1]) + if s[|s| - 1] > 0.0 then 1 else 0
  }

  lemma {:induction false} SumOfNonNegative(s: seq<real>)
    requires forall x :: x in s ==> x >= 0.0
    ensures SumOf(s) >= 0.0
    ensures SumOf(s) == 0.0 <==> CountPositiveOf(s) == 0
  {
    if s != [] {
      var p := s[..|s| - 1];
      assert s == p + [s[|s| - 1]];
      assert forall v :: v in p ==> v in s;
      assert s[|s| - 1] in s;
      SumOfNonNegative(p);
    }
  }

  /**
   * For non-negative losses, the largest loss of a year is at most the
   * year's total, and equals it exactly when at most one loss is above zero.
   */
  lemma {:induction false} MaxAtMostSum(s: seq<real>)
    requires s != []
    requires forall x :: x in s ==> x >= 0.0
    ensures MaxOf(s) <= SumOf(s)
    ensures MaxOf(s) == SumOf(s) <==> CountPositiveOf(s) <= 1
  {
    if |s| == 1 {
      assert s[..0] == [];
    } else {
      var p := s[..|s| - 1];
      var x := s[|s| - 1];
      assert s == p + [x];
      assert forall v :: v in p ==> v in s;
      assert x in s;
      MaxAtMostSum(p);
      SumOfNonNegative(p);
      var m := MaxOf(p);
      assert m >= 0.0;
      if x > 0.0 && m > 0.0 {
        PositiveMemberCounts(p, m);
      } else if x > 0.0 {
        NoPositiveCountsZero(p);
      }
    }
  }

  lemma {:induction false} NoPositiveCountsZero(s: seq<real>)
    requires forall x :: x in s ==> x <= 0.0
    ensures CountPositiveOf(s) == 0
  {
    if s != [] {
      var p := s[..|s| - 1];
      assert s == p + [s[|s| - 1]];
      assert forall v :: v in p ==> v in s;
      assert s[|s| - 1] in s;
      NoPositiveCountsZero(p);
    }
  }

  lemma {:induction false} PositiveMemberCounts(s: seq<real>, x: real)
    requires x in s && x > 0.0
    ensures CountPositiveOf(s) >= 1
  {
    var p := s[..|s| - 1];
    assert s == p + [s[|s| - 1]];
    if s[|s| - 1] != x {
      PositiveMemberCounts(p, x);
    }
  }

  /**
   * For a year whose losses are non-negative, the occurrence YLT reports at
   * most what the aggregate YLT reports, and the same value exactly when at
   * most one of the year's losses is above zero.
   */
  lemma OccurrenceAtMostAggregate(rs: seq<Record>, year: int)
    requires year in RecordYears(rs)
    requires forall r :: r in rs && r.year == year ==> r.loss >= 0.0
    ensures Lookup(ToYlt(rs, true), year).Some? && Lookup(ToYlt(rs, false), year).Some?
    ensures Lookup(ToYlt(rs, true), year).value <= Lookup(ToYlt(rs, false), year).value
    ensures (Lookup(ToYlt(rs, true), year).value == Lookup(ToYlt(rs, false), year).value)
            <==> CountPositiveOf(LossesInYear(rs, year)) <= 1
  {
    LossesInYearNonEmpty(rs, year);
    LossesInYearMembers(rs, year);
    MaxAtMostSum(LossesInYear(rs, year));
    ToYltLookup(rs, true, year);
    ToYltLookup(rs, false, year);
  }

  lemma {:induction false} LossesInYearMembers(rs: seq<Record>, year: int)
    ensures forall x :: x in LossesInYear(rs, year) ==> exists r :: r in rs && r.year == year && r.loss == x
  {
    if rs != [] {
      var p := rs[..|rs| - 1];
      assert rs == p + [rs[|rs| - 1]];
      LossesInYearMembers(p, year);
    }
  }

  /** The worked example: ten years, losses 100, 50 and 200 in years 1, 1 and 2. */
  /** A negative loss can put the occurrence loss above the aggregate: 5 and -1 give max 5 and sum 4. */
  lemma NegativeLossExample()
    ensures var rs := [Record(1, 1, 10, 5.0), Record(1, 2, 20, -1.0)];
            && ToYlt(rs, true) == [YearLoss(1, 5.0)]
            && ToYlt(rs, false) == [YearLoss(1, 4.0)]
  {
    var rs := [Record(1, 1, 10, 5.0), Record(1, 2, 20, -1.0)];
    assert rs[..1] == [Record(1, 1, 10, 5.0)];
    assert rs[..1][..0] == [];
  }

  lemma ExampleYlt()
    ensures var rs := [Record(1, 1, 10, 100.0), Record(1, 2, 20, 50.0), Record(2, 3, 30, 200.0)];
            && ToYlt(rs, false) == [YearLoss(1, 150.0), YearLoss(2, 200.0)]
            && ToYlt(rs, true) == [YearLoss(1, 100.0), YearLoss(2, 200.0)]
  {
    var rs := [Record(1, 1, 10, 100.0), Record(1, 2, 20, 50.0), Record(2, 3, 30, 200.0)];
    assert rs[..2] == [Record(1, 1, 10, 100.0), Record(1, 2, 20, 50.0)];
    assert rs[..2][..1] == [Record(1, 1, 10, 100.0)];
    assert rs[..2][..1][..0] == [];
    assert ToYlt(rs[..2][..1], false) == [YearLoss(1, 100.0)];
    assert ToYlt(rs[..2], false) == [YearLoss(1, 150.0)];
    assert ToYlt(rs[..2][..1], true) == [YearLoss(1, 100.0)];
    assert ToYlt(rs[..2], true) == [YearLoss(1, 100.0)];
    assert [YearLoss(1, 150.0)][1..] == [] && [YearLoss(1, 100.0)][1..] == [];
    assert ToYlt(rs, false) == AddLoss([YearLoss(1, 150.0)], 2, 200.0, false);
    assert ToYlt(rs, true) == AddLoss([YearLoss(1, 100.0)], 2, 200.0, true);
  }
}
