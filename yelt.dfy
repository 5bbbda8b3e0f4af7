/**
 * The Year-Event-Loss Table itself: one loss per (Year, EventID, DayOfYear)
 * key, plus the table-level number of modelled years `n_yrs`.  This module
 * holds the validator run by the accessor, the column constructor
 * `from_cols`, and the two scalar statistics `aal` and `freq0`.
 *
 * The dtype checks of the validator (integer index levels, numeric losses)
 * are carried by the Dafny types: keys are `int`, losses are `real`.
 */
module Yelt {
  import opened Wrappers
  import opened Sorting

  const COL_YEAR := "Year"
  const COL_EVENT := "EventID"
  const COL_DAY := "DayOfYear"
  /** The index names the validator looks for. */
  const INDEX_NAMES: seq<string> := [COL_YEAR, COL_DAY, COL_EVENT]
  const N_YRS_ATTR := "n_yrs"

  datatype Key = Key(year: int, eventId: int, day: int)

  /** One row of the table: its three index values and its loss. */
  datatype Record = Record(year: int, eventId: int, day: int, loss: real)

  function KeyOf(r: Record): Key
  {
    Key(r.year, r.eventId, r.day)
  }

  /** A series that already passed validation, with its `n_yrs` attribute. */
  datatype YearEventLossTable = YearEventLossTable(records: seq<Record>, nYrs: int)

  /**
   * A loss series before validation: the names of its index levels, its
   * integer attributes, and its rows.
   */
  datatype Series = Series(indexNames: seq<string>, attrs: map<string, int>, rows: seq<Record>)

  /** One error per check of the validator, so that each failure is distinguishable. */
  datatype ValidationError =
    | WrongLevelCount   // "Expecting 3 index levels"
    | WrongLevelNames   // "Expecting index names ..."
    | MissingNYrs       // "Must have 'n_yrs' in the series attrs"
    | DuplicateKeys     // "Combinations of ... not unique"
    | YearsOutOfRange   // "Years in index are out of range 1,n_yrs"

  /** The errors `from_cols` raises. */
  datatype BuildError =
    | LengthMismatch        // the DataFrame constructor rejects columns of unequal length
    | DuplicateCombination  // "You cannot have duplicate combinations of ..."

  // ---------------------------------------------------------------------
  // The table invariants, stated directly
  // ---------------------------------------------------------------------

  predicate UniqueKeys(rs: seq<Record>)
  {
    forall i, j :: 0 <= i < j < |rs| ==> KeyOf(rs[i]) != KeyOf(rs[j])
  }

  predicate YearsWithin(rs: seq<Record>, nYrs: int)
  {
    forall r :: r in rs ==> 1 <= r.year <= nYrs
  }

  /** The invariants every validated table keeps. */
  predicate Valid(t: YearEventLossTable)
  {
    UniqueKeys(t.records) && YearsWithin(t.records, t.nYrs)
  }

  // ---------------------------------------------------------------------
  // The checks as the validator performs them
  // ---------------------------------------------------------------------

  /** The distinct keys of the rows. */
  function KeySet(rs: seq<Record>): set<Key>
  {
    if rs == [] then {} else KeySet(rs[..|rs| - 1]) + {KeyOf(rs[|rs| - 1])}
  }

  /** `index.is_unique`: there are as many distinct keys as rows. */
  predicate IsUnique(rs: seq<Record>)
  {
    |KeySet(rs)| == |rs|
  }

  function MinYear(rs: seq<Record>): (m: int)
    requires rs != []
    ensures forall r :: r in rs ==> m <= r.year
    ensures exists r :: r in rs && r.year == m
  {
    if |rs| == 1 then rs[0].year
    else
      var p := rs[..|rs| - 1];
      var m := MinYear(p);
      assert rs == p + [rs[|rs| - 1]];
      if rs[|rs| - 1].year < m then rs[|rs| - 1].year else m
  }

  function MaxYear(rs: seq<Record>): (m: int)
    requires rs != []
    ensures forall r :: r in rs ==> r.year <= m
    ensures exists r :: r in rs && r.year == m
  {
    if |rs| == 1 then rs[0].year
    else
      var p := rs[..|rs| - 1];
      var m := MaxYear(p);
      assert rs == p + [rs[|rs| - 1]];
      if rs[|rs| - 1].year > m then rs[|rs| - 1].year else m
  }

  /**
   * `years.min() < 1 or years.max() > n_yrs`.  On an empty index both
   * `min()` and `max()` are NaN and both comparisons are false.
   */
  predicate YearsOutside(rs: seq<Record>, nYrs: int)
  {
    rs != [] && (MinYear(rs) < 1 || MaxYear(rs) > nYrs)
  }

  /** The two name checks: three levels, and every expected name among them. */
  predicate HasThreeLevels(names: seq<string>)
  {
    |names| == 3
  }

  predicate HasIndexNames(names: seq<string>)
  {
    forall c :: c in INDEX_NAMES ==> c in names
  }

  /** `_validate`: the checks run in order and the first that fails decides the error. */
  function Validate(s: Series): (r: Result<YearEventLossTable, ValidationError>)
    ensures r == Failure(WrongLevelCount) <==> !HasThreeLevels(s.indexNames)
    ensures r == Failure(WrongLevelNames) <==>
              HasThreeLevels(s.indexNames) && !HasIndexNames(s.indexNames)
    ensures r == Failure(MissingNYrs) <==>
              HasThreeLevels(s.indexNames) && HasIndexNames(s.indexNames) && N_YRS_ATTR !in s.attrs
    ensures r == Failure(DuplicateKeys) <==>
              HasThreeLevels(s.indexNames) && HasIndexNames(s.indexNames) && N_YRS_ATTR in s.attrs
              && !UniqueKeys(s.rows)
    ensures r == Failure(YearsOutOfRange) <==>
              HasThreeLevels(s.indexNames) && HasIndexNames(s.indexNames) && N_YRS_ATTR in s.attrs
              && UniqueKeys(s.rows) && !YearsWithin(s.rows, s.attrs[N_YRS_ATTR])
    ensures r.Success? <==>
              HasThreeLevels(s.indexNames) && HasIndexNames(s.indexNames) && N_YRS_ATTR in s.attrs
              && Valid(YearEventLossTable(s.rows, s.attrs[N_YRS_ATTR]))
    ensures r.Success? ==> r.value == YearEventLossTable(s.rows, s.attrs[N_YRS_ATTR])
  {
    IsUniqueIffUniqueKeys(s.rows);
    if |s.indexNames| != 3 then Failure(WrongLevelCount)
    else if !(forall c :: c in INDEX_NAMES ==> c in s.indexNames) then Failure(WrongLevelNames)
    else if N_YRS_ATTR !in s.attrs then Failure(MissingNYrs)
    else if !IsUnique(s.rows) then Failure(DuplicateKeys)
    else
      YearsOutsideIffNotWithin(s.rows, s.attrs[N_YRS_ATTR]);
      if YearsOutside(s.rows, s.attrs[N_YRS_ATTR]) then Failure(YearsOutOfRange)
      else Success(YearEventLossTable(s.rows, s.attrs[N_YRS_ATTR]))
  }

  /** The key set holds exactly the keys of the rows. */
  lemma {:induction false} KeySetMembers(rs: seq<Record>)
    ensures forall k :: k in KeySet(rs) <==> exists r :: r in rs && KeyOf(r) == k
  {
    if rs != [] {
      var p := rs[..|rs| - 1];
      assert rs == p + [rs[|rs| - 1]];
      KeySetMembers(p);
    }
  }

  /** Counting distinct keys decides uniqueness exactly. */
  lemma {:induction false} IsUniqueIffUniqueKeys(rs: seq<Record>)
    ensures |KeySet(rs)| <= |rs|
    ensures IsUnique(rs) <==> UniqueKeys(rs)
  {
    if rs != [] {
      var p := rs[..|rs| - 1];
      var x := rs[|rs| - 1];
      assert rs == p + [x];
      IsUniqueIffUniqueKeys(p);
      KeySetMembers(p);
      if KeyOf(x) in KeySet(p) {
        var q :| q in p && KeyOf(q) == KeyOf(x);
        var j :| 0 <= j < |p| && p[j] == q;
        assert rs[j] == q;
        assert !UniqueKeys(rs);
      } else {
        assert |KeySet(rs)| == |KeySet(p)| + 1;
        if UniqueKeys(p) {
          forall i, j | 0 <= i < j < |rs|
            ensures KeyOf(rs[i]) != KeyOf(rs[j])
          {
            if j == |p| {
              assert rs[i] in p;
            } else {
              assert rs[i] == p[i] && rs[j] == p[j];
            }
          }
        }
        if UniqueKeys(rs) {
          forall i, j | 0 <= i < j < |p| ensures KeyOf(p[i]) != KeyOf(p[j]) {
            assert p[i] == rs[i] && p[j] == rs[j];
          }
        }
      }
    }
  }

  /** The min/max comparison rejects exactly the tables with a year outside [1, n_yrs]. */
  lemma YearsOutsideIffNotWithin(rs: seq<Record>, nYrs: int)
    ensures YearsOutside(rs, nYrs) <==> !YearsWithin(rs, nYrs)
  {
  }

  /** An empty table passes whatever its `n_yrs`. */
  lemma EmptyTablePasses(names: seq<string>, attrs: map<string, int>)
    requires HasThreeLevels(names) && HasIndexNames(names) && N_YRS_ATTR in attrs
    ensures Validate(Series(names, attrs, [])).Success?
  {
  }

  /** Three levels that include the three expected names are exactly those names. */
  lemma {:induction false} LevelNamesExact(names: seq<string>)
    requires HasThreeLevels(names) && HasIndexNames(names)
    ensures forall c :: c in names <==> c in INDEX_NAMES
  {
    assert COL_YEAR in names && COL_DAY in names && COL_EVENT in names;
    var a :| 0 <= a < 3 && names[a] == COL_YEAR;
    var b :| 0 <= b < 3 && names[b] == COL_DAY;
    var c :| 0 <= c < 3 && names[c] == COL_EVENT;
    assert COL_YEAR != COL_DAY && COL_YEAR != COL_EVENT && COL_DAY != COL_EVENT;
    forall i | 0 <= i < 3 ensures names[i] in INDEX_NAMES {
      assert i == a || i == b || i == c;
    }
  }

  // ---------------------------------------------------------------------
  // from_cols
  // ---------------------------------------------------------------------

  /** The rows built from four parallel columns. */
  function Zip(year: seq<int>, eventId: seq<int>, day: seq<int>, loss: seq<real>): (rs: seq<Record>)
    requires |year| == |eventId| == |day| == |loss|
    ensures |rs| == |year|
    ensures forall i :: 0 <= i < |rs| ==> rs[i] == Record(year[i], eventId[i], day[i], loss[i])
  {
    seq(|year|, i requires 0 <= i < |year| => Record(year[i], eventId[i], day[i], loss[i]))
  }

  /**
   * `from_cols`: a series indexed by (Year, EventID, DayOfYear) with `n_yrs`
   * set, or an error for unequal columns or a repeated key triple.  The year
   * range is not checked here; the accessor checks it later.
   */
  function FromCols(year: seq<int>, eventId: seq<int>, day: seq<int>, loss: seq<real>, nYrs: int)
    : (r: Result<Series, BuildError>)
    ensures r == Failure(LengthMismatch) <==> !(|year| == |eventId| == |day| == |loss|)
    ensures r == Failure(DuplicateCombination) <==>
              |year| == |eventId| == |day| == |loss| &&
              exists i, j :: 0 <= i < j < |year| && year[i] == year[j] && eventId[i] == eventId[j] && day[i] == day[j]
    ensures r.Success? ==>
              && r.value.indexNames == [COL_YEAR, COL_EVENT, COL_DAY]
              && r.value.attrs == map[N_YRS_ATTR := nYrs]
              && |r.value.rows| == |loss|
              && forall i :: 0 <= i < |loss| ==>
                   r.value.rows[i] == Record(year[i], eventId[i], day[i], loss[i])
  {
    if !(|year| == |eventId| == |day| == |loss|) then Failure(LengthMismatch)
    else
      var rows := Zip(year, eventId, day, loss);
      IsUniqueIffUniqueKeys(rows);
      if !IsUnique(rows) then
        assert exists i, j :: 0 <= i < j < |rows| && KeyOf(rows[i]) == KeyOf(rows[j]);
        Failure(DuplicateCombination)
      else
        Success(Series([COL_YEAR, COL_EVENT, COL_DAY], map[N_YRS_ATTR := nYrs], rows))
  }

  /** A series built by `from_cols` passes the accessor's validation iff its years lie in [1, n_yrs]. */
  lemma FromColsThenValidate(year: seq<int>, eventId: seq<int>, day: seq<int>, loss: seq<real>, nYrs: int)
    requires FromCols(year, eventId, day, loss, nYrs).Success?
    ensures var s := FromCols(year, eventId, day, loss, nYrs).value;
            Validate(s).Success? <==> (forall i :: 0 <= i < |year| ==> 1 <= year[i] <= nYrs)
  {
    var s := FromCols(year, eventId, day, loss, nYrs).value;
    assert forall c :: c in INDEX_NAMES ==> c in s.indexNames;
    assert |s.rows| == |year|;
    assert (forall i :: 0 <= i < |year| ==> 1 <= year[i] <= nYrs) <==> YearsWithin(s.rows, nYrs) by {
      if (forall i :: 0 <= i < |year| ==> 1 <= year[i] <= nYrs) {
        forall r | r in s.rows ensures 1 <= r.year <= nYrs {
          var i :| 0 <= i < |s.rows| && s.rows[i] == r;
        }
      }
      if YearsWithin(s.rows, nYrs) {
        forall i | 0 <= i < |year| ensures 1 <= year[i] <= nYrs {
          assert s.rows[i] in s.rows;
        }
      }
    }
    assert !exists i, j :: 0 <= i < j < |year| && year[i] == year[j] && eventId[i] == eventId[j] && day[i] == day[j];
    assert UniqueKeys(s.rows);
  }

  // ---------------------------------------------------------------------
  // Scalar statistics
  // ---------------------------------------------------------------------

  /** Sum of the losses (`Series.sum()`). */
  function TotalLoss(rs: seq<Record>): (total: real)
    ensures (forall i :: 0 <= i < |rs| ==> rs[i].loss >= 0.0) ==> total >= 0.0
  {
    if rs == [] then 0.0 else TotalLoss(rs[..|rs| - 1]) + rs[|rs| - 1].loss
  }

  /** The records whose loss is above zero, in order. */
  function Positive(rs: seq<Record>): (r: seq<Record>)
    ensures forall x :: x in r <==> x in rs && x.loss > 0.0
    ensures |r| <= |rs|
  {
    if rs == [] then []
    else
      var p := rs[..|rs| - 1];
      assert rs == p + [rs[|rs| - 1]];
      Positive(p) + if rs[|rs| - 1].loss > 0.0 then [rs[|rs| - 1]] else []
  }

  /** The filter keeps every record above zero as often as it occurs, and no other record. */
  lemma {:induction false} PositiveCount(rs: seq<Record>, x: Record)
    ensures multiset(Positive(rs))[x] == if x.loss > 0.0 then multiset(rs)[x] else 0
  {
    if rs != [] {
      var p := rs[..|rs| - 1];
      assert rs == p + [rs[|rs| - 1]];
      PositiveCount(p, x);
    }
  }

  /** The filter keeps the records in their table order. */
  lemma {:induction false} PositiveSorted(rs: seq<Record>, leq: (Record, Record) -> bool)
    requires Sorted(rs, leq)
    ensures Sorted(Positive(rs), leq)
  {
    if rs != [] {
      var p := rs[..|rs| - 1];
      var last := rs[|rs| - 1];
      assert Sorted(p, leq);
      PositiveSorted(p, leq);
      var kept := Positive(p);
      if last.loss > 0.0 {
        forall i | 0 <= i < |kept| ensures leq(kept[i], last) {
          assert kept[i] in p;
          var j :| 0 <= j < |p| && p[j] == kept[i];
          assert rs[j] == kept[i];
        }
        assert Positive(rs) == kept + [last];
      }
    }
  }

  /** `aal`: the losses summed and spread over the modelled years. */
  function Aal(t: YearEventLossTable): (r: real)
    requires t.nYrs > 0
    ensures r * (t.nYrs as real) == TotalLoss(t.records)
  {
    TotalLoss(t.records) / t.nYrs as real
  }

  /** `(loss > 0).sum()`: how many losses are above zero. */
  function CountPositive(rs: seq<Record>): (c: nat)
    ensures c <= |rs|
  {
    if rs == [] then 0
    else CountPositive(rs[..|rs| - 1]) + if rs[|rs| - 1].loss > 0.0 then 1 else 0
  }

  /** `freq0`: the number of losses above zero per modelled year. */
  function Freq0(t: YearEventLossTable): (r: real)
    requires t.nYrs > 0
    ensures r * (t.nYrs as real) == CountPositive(t.records) as real
    ensures 0.0 <= r <= |t.records| as real / t.nYrs as real
  {
    PerYear(CountPositive(t.records), |t.records|, t.nYrs)
  }

  /** `freq0` is zero exactly when no loss is above zero. */
  lemma Freq0ZeroIffNoPositiveLoss(t: YearEventLossTable)
    requires t.nYrs > 0
    ensures Freq0(t) == 0.0 <==> forall x :: x in t.records ==> x.loss <= 0.0
  {
    CountPositiveIsFilter(t.records);
    NoPositiveIffEmpty(t.records);
  }

  /** Counting the positive losses is measuring the positive-loss filter. */
  lemma {:induction false} CountPositiveIsFilter(rs: seq<Record>)
    ensures CountPositive(rs) == |Positive(rs)|
  {
    if rs != [] {
      CountPositiveIsFilter(rs[..|rs| - 1]);
    }
  }

  lemma NoPositiveIffEmpty(rs: seq<Record>)
    ensures |Positive(rs)| == 0 <==> forall x :: x in rs ==> x.loss <= 0.0
  {
    if |Positive(rs)| > 0 {
      assert Positive(rs)[0] in Positive(rs);
    }
  }

  /** A count of records spread over the modelled years. */
  function PerYear(count: nat, bound: nat, nYrs: int): (r: real)
    requires nYrs > 0 && count <= bound
    ensures r * (nYrs as real) == count as real
    ensures 0.0 <= r <= bound as real / nYrs as real
    ensures r == 0.0 <==> count == 0
  {
    count as real / nYrs as real
  }

  lemma {:induction false} TotalLossAppend(a: seq<Record>, b: seq<Record>)
    ensures TotalLoss(a + b) == TotalLoss(a) + TotalLoss(b)
    decreases |b|
  {
    if b == [] {
      assert a + b == a;
    } else {
      var q := b[..|b| - 1];
      assert a + b == (a + q) + [b[|b| - 1]];
      assert (a + b)[..|a + b| - 1] == a + q;
      TotalLossAppend(a, q);
    }
  }

  /** The total loss does not depend on the order of the records. */
  lemma {:induction false} TotalLossPermutation(a: seq<Record>, b: seq<Record>)
    requires multiset(a) == multiset(b)
    ensures TotalLoss(a) == TotalLoss(b)
    decreases |a|
  {
    if a != [] {
      var p := a[..|a| - 1];
      var x := a[|a| - 1];
      assert a == p + [x];
      assert x in multiset(b);
      var i :| 0 <= i < |b| && b[i] == x;
      var rest := b[..i] + b[i + 1..];
      assert b == b[..i] + [x] + b[i + 1..];
      assert multiset(rest) == multiset(b) - multiset{x};
      assert multiset(p) == multiset(a) - multiset{x};
      TotalLossPermutation(p, rest);
      TotalLossAppend(b[..i] + [x], b[i + 1..]);
      TotalLossAppend(b[..i], [x]);
      TotalLossAppend(b[..i], b[i + 1..]);
      assert TotalLoss([x]) == x.loss by {
        assert [x][..0] == [];
      }
    }
  }

  /** A table whose losses are all zero (the empty table included) has an AAL of zero. */
  lemma {:induction false} AalOfZeroLosses(t: YearEventLossTable)
    requires t.nYrs > 0
    requires forall x :: x in t.records ==> x.loss == 0.0
    ensures Aal(t) == 0.0
  {
    ZeroLossesSumToZero(t.records);
  }

  lemma {:induction false} ZeroLossesSumToZero(rs: seq<Record>)
    requires forall x :: x in rs ==> x.loss == 0.0
    ensures TotalLoss(rs) == 0.0
  {
    if rs != [] {
      var p := rs[..|rs| - 1];
      assert rs == p + [rs[|rs| - 1]];
      ZeroLossesSumToZero(p);
    }
  }

  /** The worked example: ten years, losses 100, 50 and 200 in years 1, 1 and 2. */
  lemma ExampleAal()
    ensures Aal(YearEventLossTable([Record(1, 1, 10, 100.0), Record(1, 2, 20, 50.0), Record(2, 3, 30, 200.0)], 10)) == 35.0
  {
    var rs := [Record(1, 1, 10, 100.0), Record(1, 2, 20, 50.0), Record(2, 3, 30, 200.0)];
    assert rs[..2] == [Record(1, 1, 10, 100.0), Record(1, 2, 20, 50.0)];
    assert rs[..2][..1] == [Record(1, 1, 10, 100.0)];
    assert TotalLoss(rs[..2][..1]) == 100.0;
    assert TotalLoss(rs[..2]) == 150.0;
    assert TotalLoss(rs) == 350.0;
  }
}
