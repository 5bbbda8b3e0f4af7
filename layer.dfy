/**
 * The layer engine `apply_layer` and `layer_aal`: every loss is passed
 * through one layer (attachment `xs`, optional `limit`), the records that
 * do not reach the layer are dropped, a franchise layer adds the
 * attachment back, and an optional occurrence cap keeps, within each year,
 * only the first `n_loss` records in chronological order.
 */
module Layer {
  import opened Wrappers
  import opened Yelt
  import opened Sorting
  import opened Ranks

  /** `apply_layer` asserts a non-negative attachment. */
  datatype LayerError = NegativeAttachment

  /** `.subtract(xs).clip(lower=0.0).clip(upper=limit)` on one loss; no limit means no upper clip. */
  function Penetration(loss: real, xs: real, limit: Option<real>): (p: real)
    ensures limit.None? || limit.value >= 0.0 ==> p >= 0.0
    ensures limit.Some? ==> p <= limit.value
    ensures loss <= xs && (limit.None? || limit.value >= 0.0) ==> p == 0.0
    ensures xs <= loss && (limit.None? || loss - xs <= limit.value) ==> p == loss - xs
  {
    var excess := if loss - xs < 0.0 then 0.0 else loss - xs;
    if limit.Some? && excess > limit.value then limit.value else excess
  }

  /** Every record with its loss replaced by its penetration of the layer. */
  function Clipped(rs: seq<Record>, xs: real, limit: Option<real>): (r: seq<Record>)
    ensures |r| == |rs|
    ensures forall i :: 0 <= i < |rs| ==> r[i] == rs[i].(loss := Penetration(rs[i].loss, xs, limit))
  {
    if rs == [] then []
    else
      var last := rs[|rs| - 1];
      Clipped(rs[..|rs| - 1], xs, limit) + [last.(loss := Penetration(last.loss, xs, limit))]
  }

  /** `layer_losses += xs`. */
  function AddAttachment(rs: seq<Record>, xs: real): (r: seq<Record>)
    ensures |r| == |rs|
    ensures forall i :: 0 <= i < |rs| ==> r[i] == rs[i].(loss := rs[i].loss + xs)
  {
    if rs == [] then []
    else
      var last := rs[|rs| - 1];
      AddAttachment(rs[..|rs| - 1], xs) + [last.(loss := last.loss + xs)]
  }

  /** `sort_index(level=[Year, DayOfYear, EventID])`: chronological order within the table. */
  predicate ChronoLeq(a: Record, b: Record)
  {
    || a.year < b.year
    || (a.year == b.year && a.day < b.day)
    || (a.year == b.year && a.day == b.day && a.eventId <= b.eventId)
  }

  lemma ChronoLeqIsTotalPreorder()
    ensures TotalPreorder(ChronoLeq)
  {
  }

  function SortChrono(rs: seq<Record>): (r: seq<Record>)
    ensures Sorted(r, ChronoLeq)
    ensures multiset(r) == multiset(rs)
  {
    ChronoLeqIsTotalPreorder();
    Sort(rs, ChronoLeq)
  }

  /** The records of one year, in table order. */
  function OfYear(rs: seq<Record>, year: int): (r: seq<Record>)
    ensures |r| <= |rs|
  {
    if rs == [] then []
    else
      var last := rs[|rs| - 1];
      OfYear(rs[..|rs| - 1], year) + if last.year == year then [last] else []
  }

  /** `groupby(Year).head(k)`: each record is kept when fewer than k records of its year come before it. */
  function HeadPerYear(rs: seq<Record>, k: nat): (r: seq<Record>)
    ensures forall x :: x in r ==> x in rs
    ensures |r| <= |rs|
  {
    if rs == [] then []
    else
      var p := rs[..|rs| - 1];
      var last := rs[|rs| - 1];
      HeadPerYear(p, k) + if |OfYear(p, last.year)| < k then [last] else []
  }

  /** The records that reach the layer, with the attachment added back for a franchise. */
  function Survivors(rs: seq<Record>, limit: Option<real>, xs: real, isFranchise: bool): (r: seq<Record>)
    ensures |r| <= |rs|
  {
    var kept := Positive(Clipped(rs, xs, limit));
    if isFranchise then AddAttachment(kept, xs) else kept
  }

  /** What `apply_layer` returns for a non-negative attachment. */
  function Layered(rs: seq<Record>, limit: Option<real>, xs: real, nLoss: Option<nat>, isFranchise: bool)
    : (r: seq<Record>)
    ensures forall o :: o in r ==> o in Survivors(rs, limit, xs, isFranchise)
    ensures |r| <= |rs|
  {
    var survivors := Survivors(rs, limit, xs, isFranchise);
    if nLoss.None? then survivors
    else
      var sorted := SortChrono(survivors);
      assert forall o :: o in sorted ==> o in multiset(sorted);
      assert |sorted| == |multiset(sorted)| == |survivors|;
      HeadPerYear(sorted, nLoss.value)
  }

  /**
   * `apply_layer`: the attachment is checked, and the losses are clipped,
   * filtered, shifted and capped one pass after another.
   */
  method ApplyLayer(t: YearEventLossTable, limit: Option<real>, xs: real, nLoss: Option<nat>, isFranchise: bool)
    returns (r: Result<seq<Record>, LayerError>)
    ensures xs < 0.0 <==> r.Failure?
    ensures r.Failure? ==> r.error == NegativeAttachment
    ensures r.Success? ==> r.value == Layered(t.records, limit, xs, nLoss, isFranchise)
  {
    if xs < 0.0 {
      return Failure(NegativeAttachment);
    }
    var clipped := ClipLosses(t.records, xs, limit);
    var layerLosses := KeepPositive(clipped);
    if isFranchise {
      layerLosses := AddBack(layerLosses, xs);
    }
    if nLoss.Some? {
      layerLosses := CapPerYear(SortChrono(layerLosses), nLoss.value);
    }
    return Success(layerLosses);
  }

  /** `.subtract(xs).clip(lower=0.0).clip(upper=limit)`: the penetration of every loss. */
  method ClipLosses(rs: seq<Record>, xs: real, limit: Option<real>) returns (clipped: seq<Record>)
    ensures clipped == Clipped(rs, xs, limit)
  {
    clipped := [];
    for i := 0 to |rs|
      invariant clipped == Clipped(rs[..i], xs, limit)
    {
      assert rs[..i + 1][..i] == rs[..i];
      clipped := clipped + [rs[i].(loss := Penetration(rs[i].loss, xs, limit))];
    }
    assert rs[..|rs|] == rs;
  }

  /** `.loc[layer_losses > 0]`: only the records with a loss above zero. */
  method KeepPositive(rs: seq<Record>) returns (kept: seq<Record>)
    ensures kept == Positive(rs)
  {
    kept := [];
    for i := 0 to |rs|
      invariant kept == Positive(rs[..i])
    {
      assert rs[..i + 1][..i] == rs[..i];
      if rs[i].loss > 0.0 {
        kept := kept + [rs[i]];
      }
    }
    assert rs[..|rs|] == rs;
  }

  /** `layer_losses += xs`: the attachment added to every loss. */
  method AddBack(rs: seq<Record>, xs: real) returns (shifted: seq<Record>)
    ensures shifted == AddAttachment(rs, xs)
  {
    shifted := [];
    for i := 0 to |rs|
      invariant shifted == AddAttachment(rs[..i], xs)
    {
      assert rs[..i + 1][..i] == rs[..i];
      shifted := shifted + [rs[i].(loss := rs[i].loss + xs)];
    }
    assert rs[..|rs|] == rs;
  }

  /** `groupby(Year).head(k)`, counting the records seen so far in each year. */
  method CapPerYear(rs: seq<Record>, k: nat) returns (capped: seq<Record>)
    ensures capped == HeadPerYear(rs, k)
  {
    var seen: map<int, nat> := map[];
    capped := [];
    for i := 0 to |rs|
      invariant capped == HeadPerYear(rs[..i], k)
      invariant forall y :: y in seen ==> seen[y] == |OfYear(rs[..i], y)|
      invariant forall y :: y !in seen ==> OfYear(rs[..i], y) == []
    {
      var p := rs[..i];
      assert rs[..i + 1][..i] == p;
      var year := rs[i].year;
      var count := if year in seen then seen[year] else 0;
      if count < k {
        capped := capped + [rs[i]];
      }
      seen := seen[year := count + 1];
    }
    assert rs[..|rs|] == rs;
  }

  /**
   * `layer_aal`: the layered losses summed and spread over the modelled
   * years. Without a cap this is what the layer pays on every input record,
   * the dropped ones paying nothing; a cap can only lower it.
   */
  function LayerAal(t: YearEventLossTable, limit: Option<real>, xs: real, nLoss: Option<nat>, isFranchise: bool)
    : (r: Result<real, LayerError>)
    requires t.nYrs > 0
    ensures xs < 0.0 <==> r == Failure(NegativeAttachment)
    ensures r.Success? ==> r.value <= LayerPayments(t.records, limit, xs, isFranchise) / t.nYrs as real
    ensures r.Success? && nLoss.None? ==> r.value == LayerPayments(t.records, limit, xs, isFranchise) / t.nYrs as real
  {
    if xs < 0.0 then Failure(NegativeAttachment)
    else
      var layered := Layered(t.records, limit, xs, nLoss, isFranchise);
      LayeredTotal(t.records, limit, xs, nLoss, isFranchise);
      Divide(TotalLoss(layered), LayerPayments(t.records, limit, xs, isFranchise), t.nYrs as real);
      Success(Aal(YearEventLossTable(layered, t.nYrs)))
  }

  // ---------------------------------------------------------------------
  // What reaches the layer
  // ---------------------------------------------------------------------

  /** `min(loss - xs, limit)`: the part of a loss above the attachment, capped at the limit. */
  function Excess(loss: real, xs: real, limit: Option<real>): real
  {
    if limit.Some? && loss - xs > limit.value then limit.value else loss - xs
  }

  /**
   * Output record `o` is input record `r` passed through the layer: the
   * same key, a loss above the attachment, and the excess (plus the
   * attachment for a franchise), which is above zero and within the limit.
   */
  ghost predicate LayerOf(r: Record, o: Record, limit: Option<real>, xs: real, isFranchise: bool)
  {
    && KeyOf(o) == KeyOf(r)
    && r.loss > xs
    && 0.0 < Excess(r.loss, xs, limit)
    && (limit.Some? ==> Excess(r.loss, xs, limit) <= limit.value)
    && o.loss == (if isFranchise then Excess(r.loss, xs, limit) + xs else Excess(r.loss, xs, limit))
  }

  /** A loss penetrates the layer exactly when it is above the attachment and the limit is positive; it then pays the excess. */
  lemma PenetrationIsExcess(loss: real, xs: real, limit: Option<real>)
    ensures Penetration(loss, xs, limit) > 0.0 <==> loss > xs && (limit.None? || limit.value > 0.0)
    ensures Penetration(loss, xs, limit) > 0.0 ==> Penetration(loss, xs, limit) == Excess(loss, xs, limit)
  {
  }

  /** Some input record passed through the layer gives `o`. */
  ghost predicate FromInput(rs: seq<Record>, o: Record, limit: Option<real>, xs: real, isFranchise: bool)
  {
    exists r :: r in rs && LayerOf(r, o, limit, xs, isFranchise)
  }

  lemma PositiveClippedSound(rs: seq<Record>, limit: Option<real>, xs: real)
    ensures forall q :: q in Positive(Clipped(rs, xs, limit)) ==> FromInput(rs, q, limit, xs, false)
  {
    var c := Clipped(rs, xs, limit);
    forall q | q in Positive(c) ensures FromInput(rs, q, limit, xs, false) {
      var i :| 0 <= i < |c| && c[i] == q;
      PenetrationIsExcess(rs[i].loss, xs, limit);
      assert rs[i] in rs && LayerOf(rs[i], q, limit, xs, false);
    }
  }

  /** Every record that reaches the layer comes from an input record with the same key, passed through the layer. */
  lemma SurvivorsSound(rs: seq<Record>, limit: Option<real>, xs: real, isFranchise: bool)
    ensures forall o :: o in Survivors(rs, limit, xs, isFranchise) ==> FromInput(rs, o, limit, xs, isFranchise)
  {
    var kept := Positive(Clipped(rs, xs, limit));
    PositiveClippedSound(rs, limit, xs);
    if isFranchise {
      forall o | o in Survivors(rs, limit, xs, isFranchise) ensures FromInput(rs, o, limit, xs, true) {
        var j :| 0 <= j < |kept| && AddAttachment(kept, xs)[j] == o;
        assert kept[j] in kept;
        var r :| r in rs && LayerOf(r, kept[j], limit, xs, false);
        assert LayerOf(r, o, limit, xs, true);
      }
    }
  }

  /** Every input record that penetrates the layer reaches it. */
  lemma SurvivorsComplete(rs: seq<Record>, limit: Option<real>, xs: real, isFranchise: bool)
    ensures forall r :: r in rs && Penetration(r.loss, xs, limit) > 0.0 ==>
              exists o :: o in Survivors(rs, limit, xs, isFranchise) && LayerOf(r, o, limit, xs, isFranchise)
  {
    var c := Clipped(rs, xs, limit);
    var kept := Positive(c);
    forall r | r in rs && Penetration(r.loss, xs, limit) > 0.0
      ensures exists o :: o in Survivors(rs, limit, xs, isFranchise) && LayerOf(r, o, limit, xs, isFranchise)
    {
      var i :| 0 <= i < |rs| && rs[i] == r;
      PenetrationIsExcess(r.loss, xs, limit);
      assert c[i] in kept;
      if isFranchise {
        var j :| 0 <= j < |kept| && kept[j] == c[i];
        assert AddAttachment(kept, xs)[j] in Survivors(rs, limit, xs, isFranchise);
        assert LayerOf(r, AddAttachment(kept, xs)[j], limit, xs, isFranchise);
      } else {
        assert LayerOf(r, c[i], limit, xs, isFranchise);
      }
    }
  }

  /**
   * Every output key is an input key, the input loss was above the
   * attachment, and the output is the excess capped at the limit, in
   * (0, limit], with the attachment added back for a franchise.
   */
  lemma LayeredSound(rs: seq<Record>, limit: Option<real>, xs: real, nLoss: Option<nat>, isFranchise: bool)
    ensures forall o :: o in Layered(rs, limit, xs, nLoss, isFranchise) ==> FromInput(rs, o, limit, xs, isFranchise)
  {
    var s := Survivors(rs, limit, xs, isFranchise);
    SurvivorsSound(rs, limit, xs, isFranchise);
    if nLoss.Some? {
      forall o | o in Layered(rs, limit, xs, nLoss, isFranchise)
        ensures o in s
      {
        assert o in SortChrono(s);
        assert o in multiset(SortChrono(s));
      }
    }
  }

  /** Without an occurrence cap every record that penetrates the layer is in the output. */
  lemma LayeredComplete(rs: seq<Record>, limit: Option<real>, xs: real, isFranchise: bool)
    ensures forall r :: r in rs && Penetration(r.loss, xs, limit) > 0.0 ==>
              exists o :: o in Layered(rs, limit, xs, None, isFranchise) && LayerOf(r, o, limit, xs, isFranchise)
  {
    SurvivorsComplete(rs, limit, xs, isFranchise);
  }

  /**
   * A franchise pays more than the attachment, and pays the full loss
   * exactly when the limit did not cut the excess.
   */
  lemma FranchisePaysFull(rs: seq<Record>, limit: Option<real>, xs: real, nLoss: Option<nat>)
    ensures forall o :: o in Layered(rs, limit, xs, nLoss, true) ==>
              o.loss > xs
              && exists r :: r in rs && KeyOf(r) == KeyOf(o) && r.loss > xs
                             && (o.loss == r.loss <==> limit.None? || r.loss - xs <= limit.value)
  {
    LayeredSound(rs, limit, xs, nLoss, true);
    forall o | o in Layered(rs, limit, xs, nLoss, true)
      ensures o.loss > xs
      ensures exists r :: r in rs && KeyOf(r) == KeyOf(o) && r.loss > xs
                          && (o.loss == r.loss <==> limit.None? || r.loss - xs <= limit.value)
    {
      var r :| r in rs && LayerOf(r, o, limit, xs, true);
    }
  }

  // ---------------------------------------------------------------------
  // The layer that changes nothing
  // ---------------------------------------------------------------------

  /** `apply_layer()` with no limit, no attachment and no cap keeps exactly the positive losses, unchanged. */
  lemma {:induction false} IdentityLayer(rs: seq<Record>)
    ensures Layered(rs, None, 0.0, None, false) == Positive(rs)
  {
    if rs != [] {
      var p := rs[..|rs| - 1];
      IdentityLayer(p);
      assert Clipped(rs, 0.0, None) == Clipped(p, 0.0, None) + [rs[|rs| - 1].(loss := Penetration(rs[|rs| - 1].loss, 0.0, None))];
      assert Clipped(rs, 0.0, None)[..|rs| - 1] == Clipped(p, 0.0, None);
    }
  }

  // ---------------------------------------------------------------------
  // The occurrence cap
  // ---------------------------------------------------------------------

  function Min(a: int, b: int): int
  {
    if a <= b then a else b
  }

  lemma {:induction false} OfYearMembers(rs: seq<Record>, year: int)
    ensures forall x :: x in OfYear(rs, year) <==> x in rs && x.year == year
  {
    if rs != [] {
      var p := rs[..|rs| - 1];
      assert rs == p + [rs[|rs| - 1]];
      OfYearMembers(p, year);
    }
  }

  lemma OfYearAppend(h: seq<Record>, x: Record, year: int)
    ensures OfYear(h + [x], year) == OfYear(h, year) + if x.year == year then [x] else []
  {
    assert (h + [x])[..|h + [x]| - 1] == h;
  }

  /** `groupby(Year).head(k)` keeps, of each year, the first k records in table order. */
  lemma {:induction false} HeadPerYearOfYear(s: seq<Record>, k: nat, year: int)
    ensures OfYear(HeadPerYear(s, k), year) == OfYear(s, year)[..Min(k, |OfYear(s, year)|)]
  {
    if s != [] {
      var p := s[..|s| - 1];
      var x := s[|s| - 1];
      HeadPerYearOfYear(p, k, year);
      var h := HeadPerYear(p, k);
      var before := OfYear(p, year);
      assert OfYear(s, year) == before + if x.year == year then [x] else [];
      if |OfYear(p, x.year)| < k {
        assert HeadPerYear(s, k) == h + [x];
        OfYearAppend(h, x, year);
        if x.year == year {
          assert before[..|before|] == before;
          assert (before + [x])[..|before| + 1] == before + [x];
        }
      } else {
        assert HeadPerYear(s, k) == h;
        if x.year == year {
          assert before[..k] == (before + [x])[..k];
        }
      }
    }
  }

  /** `head(k)` keeps the records in their table order. */
  lemma {:induction false} HeadPerYearSorted(s: seq<Record>, k: nat, leq: (Record, Record) -> bool)
    requires Sorted(s, leq)
    ensures Sorted(HeadPerYear(s, k), leq)
  {
    if s != [] {
      var p := s[..|s| - 1];
      var x := s[|s| - 1];
      assert Sorted(p, leq);
      HeadPerYearSorted(p, k, leq);
      var h := HeadPerYear(p, k);
      if |OfYear(p, x.year)| < k {
        forall i | 0 <= i < |h| ensures leq(h[i], x) {
          assert h[i] in p;
          var j :| 0 <= j < |p| && p[j] == h[i];
          assert s[j] == h[i];
        }
        assert HeadPerYear(s, k) == h + [x];
      }
    }
  }

  /** With an occurrence cap the whole output is in (Year, DayOfYear, EventID) order. */
  lemma CappedIsChronological(rs: seq<Record>, limit: Option<real>, xs: real, k: nat, isFranchise: bool)
    ensures Sorted(Layered(rs, limit, xs, Some(k), isFranchise), ChronoLeq)
  {
    HeadPerYearSorted(SortChrono(Survivors(rs, limit, xs, isFranchise)), k, ChronoLeq);
  }

  /** The records of one year in a sorted table are themselves in order. */
  lemma {:induction false} OfYearSorted(s: seq<Record>, year: int)
    requires Sorted(s, ChronoLeq)
    ensures Sorted(OfYear(s, year), ChronoLeq)
  {
    if s != [] {
      var p := s[..|s| - 1];
      var x := s[|s| - 1];
      assert Sorted(p, ChronoLeq);
      OfYearSorted(p, year);
      var o := OfYear(p, year);
      if x.year == year {
        OfYearMembers(p, year);
        forall i | 0 <= i < |o| ensures ChronoLeq(o[i], x) {
          assert o[i] in p;
          var j :| 0 <= j < |p| && p[j] == o[i];
          assert s[j] == o[i];
        }
      }
    }
  }

  /** How often a record occurs among one year's records. */
  lemma {:induction false} OfYearCount(s: seq<Record>, year: int, x: Record)
    ensures multiset(OfYear(s, year))[x] == if x.year == year then multiset(s)[x] else 0
  {
    if s != [] {
      var p := s[..|s| - 1];
      assert s == p + [s[|s| - 1]];
      OfYearCount(p, year, x);
    }
  }

  /** Reordering a table reorders the records of each year. */
  lemma OfYearPermutation(a: seq<Record>, b: seq<Record>, year: int)
    requires multiset(a) == multiset(b)
    ensures multiset(OfYear(a, year)) == multiset(OfYear(b, year))
  {
    forall x ensures multiset(OfYear(a, year))[x] == multiset(OfYear(b, year))[x] {
      OfYearCount(a, year, x);
      OfYearCount(b, year, x);
    }
  }

  /**
   * With `n_loss = k`, each year of the output holds the first k of that
   * year's survivors in (Year, DayOfYear, EventID) order, whatever their
   * losses: at most k records, and all of them when there were at most k.
   */
  lemma OccurrenceCap(rs: seq<Record>, limit: Option<real>, xs: real, k: nat, isFranchise: bool, year: int)
    ensures var ordered := OfYear(SortChrono(Survivors(rs, limit, xs, isFranchise)), year);
            && Sorted(ordered, ChronoLeq)
            && multiset(ordered) == multiset(OfYear(Survivors(rs, limit, xs, isFranchise), year))
            && OfYear(Layered(rs, limit, xs, Some(k), isFranchise), year) == ordered[..Min(k, |ordered|)]
    ensures |OfYear(Layered(rs, limit, xs, Some(k), isFranchise), year)| <= k
    ensures |OfYear(Survivors(rs, limit, xs, isFranchise), year)| <= k ==>
              multiset(OfYear(Layered(rs, limit, xs, Some(k), isFranchise), year))
              == multiset(OfYear(Survivors(rs, limit, xs, isFranchise), year))
  {
    var s := Survivors(rs, limit, xs, isFranchise);
    var sorted := SortChrono(s);
    OfYearSorted(sorted, year);
    OfYearPermutation(sorted, s, year);
    HeadPerYearOfYear(sorted, k, year);
    var ordered := OfYear(sorted, year);
    if |OfYear(s, year)| <= k {
      assert |ordered| == |multiset(ordered)| == |multiset(OfYear(s, year))| == |OfYear(s, year)|;
      assert ordered[..|ordered|] == ordered;
    }
  }

  // ---------------------------------------------------------------------
  // layer_aal
  // ---------------------------------------------------------------------

  /** Dropping records with no loss does not change the total. */
  lemma {:induction false} TotalLossOfPositive(rs: seq<Record>)
    requires forall r :: r in rs ==> r.loss >= 0.0
    ensures TotalLoss(Positive(rs)) == TotalLoss(rs)
  {
    if rs != [] {
      var p := rs[..|rs| - 1];
      var x := rs[|rs| - 1];
      assert x in rs;
      assert forall r :: r in p ==> r in rs;
      TotalLossOfPositive(p);
      TotalLossAppend(Positive(p), if x.loss > 0.0 then [x] else []);
    }
  }

  /** What the layer pays on one loss: its penetration when that is above zero, plus the attachment for a franchise. */
  function Payment(loss: real, xs: real, limit: Option<real>, isFranchise: bool): real
  {
    var p := Penetration(loss, xs, limit);
    if p <= 0.0 then 0.0 else if isFranchise then p + xs else p
  }

  /** The payments on every input record, in table order. */
  function LayerPayments(rs: seq<Record>, limit: Option<real>, xs: real, isFranchise: bool): real
  {
    if rs == [] then 0.0
    else LayerPayments(rs[..|rs| - 1], limit, xs, isFranchise) + Payment(rs[|rs| - 1].loss, xs, limit, isFranchise)
  }

  lemma AddAttachmentAppend(a: seq<Record>, b: seq<Record>, xs: real)
    ensures AddAttachment(a + b, xs) == AddAttachment(a, xs) + AddAttachment(b, xs)
  {
    var l := AddAttachment(a + b, xs);
    var r := AddAttachment(a, xs) + AddAttachment(b, xs);
    forall i | 0 <= i < |l| ensures l[i] == r[i] {
      if i < |a| {
        assert (a + b)[i] == a[i];
      } else {
        assert (a + b)[i] == b[i - |a|];
      }
    }
  }

  lemma ClippedSnoc(p: seq<Record>, c: Record, xs: real, limit: Option<real>)
    ensures Clipped(p + [c], xs, limit) == Clipped(p, xs, limit) + [c.(loss := Penetration(c.loss, xs, limit))]
  {
    assert (p + [c])[..|p|] == p;
  }

  lemma PositiveSnoc(q: seq<Record>, d: Record)
    ensures Positive(q + [d]) == Positive(q) + if d.loss > 0.0 then [d] else []
  {
    assert (q + [d])[..|q|] == q;
  }

  lemma AddAttachmentSingleton(d: Record, xs: real)
    ensures AddAttachment([d], xs) == [d.(loss := d.loss + xs)]
  {
    assert [d][..0] == [];
  }

  /** What one input record contributes to the survivors: its paid record, or nothing when it does not reach the layer. */
  function Paid(c: Record, limit: Option<real>, xs: real, isFranchise: bool): seq<Record>
  {
    if Penetration(c.loss, xs, limit) > 0.0 then [c.(loss := Payment(c.loss, xs, limit, isFranchise))] else []
  }

  lemma PaidTotal(c: Record, limit: Option<real>, xs: real, isFranchise: bool)
    ensures TotalLoss(Paid(c, limit, xs, isFranchise)) == Payment(c.loss, xs, limit, isFranchise)
  {
    if Penetration(c.loss, xs, limit) > 0.0 {
      TotalLossOfSingleton(c.(loss := Payment(c.loss, xs, limit, isFranchise)));
    }
  }

  /** One more input record adds its paid record to the survivors, or nothing when it does not reach the layer. */
  lemma SurvivorsSnoc(p: seq<Record>, c: Record, limit: Option<real>, xs: real, isFranchise: bool)
    ensures Survivors(p + [c], limit, xs, isFranchise) == Survivors(p, limit, xs, isFranchise) + Paid(c, limit, xs, isFranchise)
  {
    var d := c.(loss := Penetration(c.loss, xs, limit));
    var kept := Positive(Clipped(p, xs, limit));
    var grown := Positive(Clipped(p + [c], xs, limit));
    ClippedSnoc(p, c, xs, limit);
    PositiveSnoc(Clipped(p, xs, limit), d);
    if d.loss > 0.0 {
      assert grown == kept + [d];
      if isFranchise {
        AddAttachmentAppend(kept, [d], xs);
        AddAttachmentSingleton(d, xs);
        assert AddAttachment(grown, xs) == AddAttachment(kept, xs) + [d.(loss := d.loss + xs)];
        var pay := Payment(c.loss, xs, limit, isFranchise);
        assert pay == d.loss + xs;
        assert d.(loss := d.loss + xs) == c.(loss := pay);
      } else {
        assert Paid(c, limit, xs, isFranchise) == [d];
      }
    } else {
      assert grown == kept;
      assert Paid(c, limit, xs, isFranchise) == [];
    }
  }

  lemma TotalLossOfSingleton(d: Record)
    ensures TotalLoss([d]) == d.loss
  {
    assert [d][..0] == [];
  }

  /** The survivors carry exactly the layer's payments. */
  lemma {:induction false} SurvivorsTotal(rs: seq<Record>, limit: Option<real>, xs: real, isFranchise: bool)
    ensures TotalLoss(Survivors(rs, limit, xs, isFranchise)) == LayerPayments(rs, limit, xs, isFranchise)
  {
    if rs != [] {
      var p := rs[..|rs| - 1];
      var c := rs[|rs| - 1];
      assert rs == p + [c];
      SurvivorsSnoc(p, c, limit, xs, isFranchise);
      SurvivorsTotal(p, limit, xs, isFranchise);
      TotalLossAppend(Survivors(p, limit, xs, isFranchise), Paid(c, limit, xs, isFranchise));
      PaidTotal(c, limit, xs, isFranchise);
    }
  }

  /** On losses above zero, the cap keeps at most the total. */
  lemma {:induction false} HeadPerYearTotal(s: seq<Record>, k: nat)
    requires forall x :: x in s ==> x.loss > 0.0
    ensures TotalLoss(HeadPerYear(s, k)) <= TotalLoss(s)
  {
    if s != [] {
      var p := s[..|s| - 1];
      var x := s[|s| - 1];
      assert x in s;
      assert forall y :: y in p ==> y in s;
      HeadPerYearTotal(p, k);
      var tail := if |OfYear(p, x.year)| < k then [x] else [];
      TotalLossAppend(HeadPerYear(p, k), tail);
      TotalLossOfSingleton(x);
    }
  }

  /** With a non-negative attachment every record that reaches the layer has a loss above zero. */
  lemma SurvivorsPositive(rs: seq<Record>, limit: Option<real>, xs: real, isFranchise: bool)
    requires xs >= 0.0
    ensures forall o :: o in Survivors(rs, limit, xs, isFranchise) ==> o.loss > 0.0
  {
    SurvivorsSound(rs, limit, xs, isFranchise);
    forall o | o in Survivors(rs, limit, xs, isFranchise) ensures o.loss > 0.0 {
      var r :| r in rs && LayerOf(r, o, limit, xs, isFranchise);
    }
  }

  /** The layered total is the layer's payments without a cap, and at most that with one. */
  lemma LayeredTotal(rs: seq<Record>, limit: Option<real>, xs: real, nLoss: Option<nat>, isFranchise: bool)
    requires xs >= 0.0
    ensures TotalLoss(Layered(rs, limit, xs, nLoss, isFranchise)) <= LayerPayments(rs, limit, xs, isFranchise)
    ensures nLoss.None? ==>
              TotalLoss(Layered(rs, limit, xs, nLoss, isFranchise)) == LayerPayments(rs, limit, xs, isFranchise)
  {
    var s := Survivors(rs, limit, xs, isFranchise);
    SurvivorsTotal(rs, limit, xs, isFranchise);
    if nLoss.Some? {
      var sorted := SortChrono(s);
      TotalLossPermutation(sorted, s);
      SurvivorsPositive(rs, limit, xs, isFranchise);
      forall x | x in sorted ensures x.loss > 0.0 {
        assert x in multiset(sorted);
      }
      HeadPerYearTotal(sorted, nLoss.value);
    }
  }

  /** Every layered loss is above zero, so the layer's AAL is never negative. */
  lemma LayerAalNonNegative(t: YearEventLossTable, limit: Option<real>, xs: real, nLoss: Option<nat>, isFranchise: bool)
    requires t.nYrs > 0 && xs >= 0.0
    ensures LayerAal(t, limit, xs, nLoss, isFranchise).Success?
    ensures LayerAal(t, limit, xs, nLoss, isFranchise).value >= 0.0
  {
    var out := Layered(t.records, limit, xs, nLoss, isFranchise);
    LayeredTotalNonNegative(t.records, limit, xs, nLoss, isFranchise);
    Divide(0.0, TotalLoss(out), t.nYrs as real);
    assert LayerAal(t, limit, xs, nLoss, isFranchise).value == TotalLoss(out) / t.nYrs as real;
  }

  lemma LayeredTotalNonNegative(rs: seq<Record>, limit: Option<real>, xs: real, nLoss: Option<nat>, isFranchise: bool)
    requires xs >= 0.0
    ensures TotalLoss(Layered(rs, limit, xs, nLoss, isFranchise)) >= 0.0
  {
    var out := Layered(rs, limit, xs, nLoss, isFranchise);
    SurvivorsPositive(rs, limit, xs, isFranchise);
    forall i | 0 <= i < |out| ensures out[i].loss >= 0.0 {
      assert out[i] in out;
    }
  }

  /** For a table without negative losses, the layer that keeps everything has the table's AAL. */
  lemma IdentityLayerAal(t: YearEventLossTable)
    requires t.nYrs > 0
    requires forall r :: r in t.records ==> r.loss >= 0.0
    ensures LayerAal(t, None, 0.0, None, false) == Success(Aal(t))
  {
    IdentityLayer(t.records);
    TotalLossOfPositive(t.records);
  }

  /** Attachment 20 and limit 50: a loss of 100 pays 50, a loss of 10 does not reach the layer. */
  lemma ExampleLayer()
    ensures Layered([Record(1, 1, 10, 100.0), Record(1, 2, 20, 10.0)], Some(50.0), 20.0, None, false)
            == [Record(1, 1, 10, 50.0)]
  {
    var rs := [Record(1, 1, 10, 100.0), Record(1, 2, 20, 10.0)];
    var c := Clipped(rs, 20.0, Some(50.0));
    assert c == [Record(1, 1, 10, 50.0), Record(1, 2, 20, 0.0)];
    assert c[..1] == [Record(1, 1, 10, 50.0)];
    assert c[..1][..0] == [];
  }
}
