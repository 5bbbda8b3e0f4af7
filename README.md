# YELT analytics in Dafny

This project models the analytical core of `cattbl/yelt.py` and proves properties of the model. That file is a pandas accessor for a Year-Event-Loss Table (YELT). A YELT is a table of loss records. Each record is keyed by a unique `(Year, EventID, DayOfYear)` triple. The table also carries a table-level `n_yrs`, the number of modelled years.

The model covers these parts of the file:

- the validator;
- the duplicate-key rejection of `from_cols`;
- the statistics `aal` and `freq0`;
- year aggregation (`to_ylt`);
- the empirical rank metrics `exfreq` and `cprob`;
- the exceedance-frequency and severity curves;
- interpolation of losses at return periods (`loss_at_rp`);
- the layer engine (`apply_layer`, `layer_aal`).

Modules:

- `Wrappers`: `Option` (NaN is `None`) and `Result` (a raised exception is `Failure`).
- `Sorting`:
  - a generic insertion sort by a multi-key comparator, proved to return a sorted permutation;
  - `drop_duplicates`, modelled as keeping first occurrences.
- `Yelt`: the record and table types, the validator, `from_cols`, `aal` and `freq0`.
- `Ylt`:
  - models `to_ylt` as a sequence of `(year, loss)` entries in ascending year order, which is how `groupby` returns them;
  - is proved to agree with an independent per-year reference definition (each year's entry is that year's loss total or maximum).
- `Ranks`: `exfreq` and `cprob`, written as counts.
  - `rank(ascending=False, method='min')` is `1 + #{losses > x}`.
  - `rank(ascending=True, method='max')` is `#{losses <= x}`.
  - Both counts are proved equal to the 1-based positions in a sort by loss.
- `Curves`: `to_ef_curve` and `to_severity_curve`, with and without the key columns.
- `Interpolation`: `np.interp` and the `loss_at_rp` method.
- `Layer`: the `apply_layer` method, its specification function, and `layer_aal`.

Modelling conventions:

- Losses, frequencies and return periods are `real`, which is exact rational arithmetic.
- `n_yrs > 0` is a precondition of every statistic. The code divides by it and never checks it.
- The position of a row in a curve sequence is its `Order`, so `Order` runs from 0 to the number of rows less one.

Three behaviours of the code are worth stating outright:

- `_validate` checks that the index has three levels and that each of Year, EventID and DayOfYear is among their names. `Yelt.LevelNamesExact` shows that this fixes the names exactly.
- For a year whose losses are non-negative, the occurrence YLT (per-year max) is at most the aggregate YLT (per-year sum), with equality exactly when at most one loss is positive. `Ylt.OccurrenceAtMostAggregate` proves this. A negative loss can break it: losses 5 and -1 give max 5 and sum 4 (`Ylt.NegativeLossExample`).
- An empty table passes the year check, because `min()` and `max()` of no years are NaN and both comparisons are false. `Yelt.EmptyTablePasses` states this.

## Model

| member | source | states |
|---|---|---|
| Yelt.Validate | cattbl/yelt.py:28-59 | The checks run in source order: three index levels, the expected names, `n_yrs` present, unique keys, years in [1, n_yrs]. Each error is returned exactly when every earlier check passes and this one fails. Success holds exactly when all checks pass, and it wraps the rows with `n_yrs`. |
| Yelt.IsUniqueIffUniqueKeys | cattbl/yelt.py:53-54 | `index.is_unique` (as many distinct keys as rows) holds iff no two records share a key. |
| Yelt.KeySetMembers | cattbl/yelt.py:53 | The key set is exactly the set of the records' keys. |
| Yelt.MinYear | cattbl/yelt.py:57-58 | `years.min()` is at most every year and is some record's year. |
| Yelt.MaxYear | cattbl/yelt.py:57-58 | `years.max()` is at least every year and is some record's year. |
| Yelt.EmptyTablePasses | cattbl/yelt.py:56-59 | A table with no records passes, whatever its `n_yrs`. |
| Yelt.LevelNamesExact | cattbl/yelt.py:32-36 | Three levels that include the three expected names are exactly those names. |
| Yelt.FromCols | cattbl/yelt.py:278-291 | Unequal column lengths fail. A repeated (year, event, day) triple fails exactly when one exists. Otherwise the result is the index (Year, EventID, DayOfYear), `n_yrs` set, and one record per position. |
| Yelt.FromColsThenValidate | cattbl/yelt.py:278-291 | A series built by `from_cols` passes validation iff all its years lie in [1, n_yrs], since `from_cols` itself never checks the range. |
| Yelt.Aal | cattbl/yelt.py:71-74 | `aal * n_yrs` is the total loss. |
| Yelt.AalOfZeroLosses | cattbl/yelt.py:71-74 | An empty or all-zero table has `aal == 0`. |
| Yelt.TotalLoss | cattbl/yelt.py:74 | The `sum()` of a table with no negative loss is non-negative. |
| Yelt.TotalLossPermutation | cattbl/yelt.py:74 | The total loss does not depend on the order of the records. |
| Yelt.TotalLossAppend | cattbl/yelt.py:74 | The total of two tables placed together is the sum of their totals. |
| Yelt.ExampleAal | cattbl/yelt.py:71-74 | With n_yrs 10, losses 100, 50 and 200 give `aal == 35`. |
| Yelt.Freq0 | cattbl/yelt.py:76-79 | `freq0 * n_yrs` is the number of losses above zero, and `freq0` lies in [0, N/n_yrs]. |
| Yelt.CountPositiveIsFilter | cattbl/yelt.py:79 | `(loss > 0).sum()` is the length of the filter of positive losses. |
| Yelt.Freq0ZeroIffNoPositiveLoss | cattbl/yelt.py:76-79 | `freq0 == 0` iff no loss is above zero. |
| Yelt.Positive | cattbl/yelt.py:203 | The filter keeps exactly the records with a loss above zero, and is no longer than the input. |
| Yelt.PositiveCount | cattbl/yelt.py:203 | Each record above zero occurs in the filter as often as in the input, and no other record occurs at all. |
| Yelt.PositiveSorted | cattbl/yelt.py:203 | The filter keeps the input's order: a table sorted by any relation gives a filter sorted by it. |
| Ylt.ToYlt | cattbl/yelt.py:81-93 | The YLT lists years in strictly ascending order, and its years are exactly the years that have records. |
| Ylt.ToYltLookup | cattbl/yelt.py:88-93 | A year has an entry iff it has records. The entry is the sum of that year's losses, or their max with `is_occurrence`. |
| Ylt.OneEntryPerYear | cattbl/yelt.py:88-93 | Each year occurs at most once, and exactly once when it has records. |
| Ylt.AddLoss | cattbl/yelt.py:88 | Folding one loss into the grouped table keeps years ascending and adds that year. |
| Ylt.AddLossLookup | cattbl/yelt.py:88-93 | Folding a loss in changes only its year's entry, which it starts or combines with. |
| Ylt.Lookup | cattbl/yelt.py:88-93 | A year is found iff it is one of the YLT's years. |
| Ylt.AggregateYltTotal | cattbl/yelt.py:92-93 | The sum-YLT's total equals the YELT's total loss. |
| Ylt.MaxOf | cattbl/yelt.py:90-91 | The max is at least every loss and is one of them. |
| Ylt.MaxAtMostSum | cattbl/yelt.py:90-93 | For non-negative losses the max is at most the sum, and equal iff at most one loss is positive. |
| Ylt.OccurrenceAtMostAggregate | cattbl/yelt.py:90-93 | For a year with non-negative losses, the occurrence value is at most the aggregate value, and equal iff at most one loss is positive. |
| Ylt.LossesInYearNonEmpty | cattbl/yelt.py:88 | A year has losses iff some record has that year. |
| Ylt.NegativeLossExample | cattbl/yelt.py:88-93 | With losses 5 and -1 in one year, the occurrence YLT gives 5 and the aggregate YLT gives 4. |
| Ylt.ExampleYlt | cattbl/yelt.py:81-93 | Years (1, 1, 2) and losses (100, 50, 200) give the sum-YLT (150, 200) and the max-YLT (100, 200). |
| Ranks.CountsPartition | cattbl/yelt.py:95-100 | Every loss is either greater than x or at most x. |
| Ranks.CountGreaterAntitone | cattbl/yelt.py:97 | Fewer losses exceed a larger value, and strictly fewer when some loss lies between the two values. |
| Ranks.CountAtMostMonotone | cattbl/yelt.py:162 | More losses lie at or below a larger value, and strictly more when some loss lies between. |
| Ranks.CountGreaterOfMember | cattbl/yelt.py:95-100 | For a recorded loss, fewer than N losses exceed it and at least one lies at or below it. |
| Ranks.RankMinDescending | cattbl/yelt.py:97 | `rank(ascending=False, method='min')` lies in [1, N + 1]. |
| Ranks.RankMaxAscending | cattbl/yelt.py:162 | `rank(ascending=True, method='max')` is at most N. |
| Ranks.ExFreq | cattbl/yelt.py:95-100 | ExFreq is at least `1/n_yrs`, with equality exactly when no loss is larger. |
| Ranks.CProb | cattbl/yelt.py:156-165 | CProb lies in [0, 1], and is 1 exactly when no loss is larger. |
| Ranks.ExFreqOfLargest | cattbl/yelt.py:95-100 | The largest loss has ExFreq `1/n_yrs`. |
| Ranks.ExFreqAntitone | cattbl/yelt.py:95-100 | ExFreq never rises with the loss, and strictly falls across a recorded loss. |
| Ranks.ExFreqBounds | cattbl/yelt.py:95-100 | The ExFreq of a recorded loss lies in [1/n_yrs, N/n_yrs]. |
| Ranks.CProbOfLargest | cattbl/yelt.py:156-165 | The largest loss has CProb 1. |
| Ranks.CProbMonotone | cattbl/yelt.py:156-165 | CProb never falls with the loss, and strictly rises across a recorded loss. |
| Ranks.CProbBounds | cattbl/yelt.py:156-165 | The CProb of a recorded loss lies in (0, 1]. |
| Ranks.CountGreaterPermutation | cattbl/yelt.py:95-100 | The number of losses above a value does not depend on the order of the records. |
| Ranks.RankMinIsFirstPosition | cattbl/yelt.py:95-100 | With the losses sorted from the largest down, the descending `min` rank of a loss is the 1-based position where it first occurs, so the rank count agrees with pandas' positional definition. |
| Ranks.RankMaxIsLastPosition | cattbl/yelt.py:156-165 | With the losses sorted from the smallest up, the ascending `max` rank of a loss is the 1-based position where it last occurs. |
| Sorting.Sort | cattbl/yelt.py:112-114 | The sort returns a permutation that is sorted by the comparator. |
| Sorting.Insert | cattbl/yelt.py:112-114 | Inserting into a sorted sequence keeps it sorted and adds exactly that element. |
| Sorting.Dedup | cattbl/yelt.py:117 | `drop_duplicates` keeps the same set of rows, with no repeats and no more rows. |
| Sorting.DedupSorted | cattbl/yelt.py:117 | Dropping duplicates from a sorted sequence leaves it sorted. |
| Curves.EfRows | cattbl/yelt.py:106-107 | Concatenating the losses with `exfreq` gives one row per record. |
| Curves.EfTable | cattbl/yelt.py:102-114 | With `keep_index=True`, the EF curve is a permutation of the records' rows, sorted by Loss descending, ExFreq ascending, Year descending, DayOfYear descending. |
| Curves.EfTableMonotone | cattbl/yelt.py:110-123 | Along Order the EF rows never rise in Loss and never fall in ExFreq. There is one row per record. |
| Curves.EfRowsMembers | cattbl/yelt.py:105-107 | Each row carries a recorded loss and its ExFreq, and each record has a row. |
| Curves.EfCurve | cattbl/yelt.py:102-123 | With `keep_index=False` the curve has no repeated point, at most one point per record, and is empty only for an empty table. |
| Curves.EfCurveMembers | cattbl/yelt.py:116-117 | With `keep_index=False`, each point is a recorded loss with its ExFreq, and every recorded loss has a point. |
| Curves.EfCurveStrict | cattbl/yelt.py:116-123 | With `keep_index=False`, Loss strictly falls and ExFreq strictly rises, so there is one point per distinct loss. |
| Curves.EfCurveHead | cattbl/yelt.py:110-123 | The first point holds the largest loss, with ExFreq `1/n_yrs`. |
| Curves.SeverityRows | cattbl/yelt.py:171-173 | Concatenating the losses with `cprob` gives one row per record. |
| Curves.SeverityTable | cattbl/yelt.py:167-180 | With `keep_index=True`, the severity curve is a permutation of the records' rows, sorted by Loss, CProb, Year and DayOfYear, all ascending. |
| Curves.SeverityTableMonotone | cattbl/yelt.py:176-189 | Along Order the severity rows never fall in Loss or in CProb. There is one row per record. |
| Curves.SeverityRowsMembers | cattbl/yelt.py:171-173 | Each row carries a recorded loss and its CProb, and each record has a row. |
| Curves.SeverityCurve | cattbl/yelt.py:167-189 | With `keep_index=False` the curve has no repeated point, at most one point per record, and is empty only for an empty table. |
| Curves.SeverityCurveMembers | cattbl/yelt.py:182-183 | With `keep_index=False`, each point is a recorded loss with its CProb, and every recorded loss has a point. |
| Curves.SeverityCurveStrict | cattbl/yelt.py:182-189 | With `keep_index=False`, Loss and CProb strictly rise, so there is one point per distinct loss. |
| Curves.SeverityCurveLast | cattbl/yelt.py:176-189 | The last point holds the largest loss, with CProb 1. |
| Curves.PointsMembers | cattbl/yelt.py:117 | Dropping the key columns leaves exactly the (loss, metric) pairs of the rows. |
| Interpolation.Interp | cattbl/yelt.py:149-152 | `np.interp` gives `left` below the first ExFreq, `right` above the last, and a point's loss at that point's ExFreq. |
| Interpolation.InterpBetweenPoints | cattbl/yelt.py:149-152 | Strictly between two neighbouring ExFreq values, the result is the straight line through the two points. |
| Interpolation.InterpWithin | cattbl/yelt.py:149-152 | The result stays in any range that holds every loss and both fill values. |
| Interpolation.InterpAntitone | cattbl/yelt.py:149-152 | On falling losses, with fill values outside their range, the interpolated loss never rises with the frequency. |
| Interpolation.LerpBetween | cattbl/yelt.py:149-152 | A value on a segment lies between the segment's end losses. |
| Interpolation.LossAtRp | cattbl/yelt.py:125-154 | The method fills a buffer with the periods, overwrites the non-positive ones with NaN, and then interpolates. The output has the input's length, and entry i is the loss at period i on the EF curve. |
| Interpolation.LossAtReturnPeriod | cattbl/yelt.py:143-152 | One period gives NaN iff it is not positive. Otherwise, at or below the first ExFreq it gives the maximum loss, and past the last ExFreq it gives 0. |
| Interpolation.LossAtRpCases | cattbl/yelt.py:143-152 | NaN iff rp <= 0. A period longer than n_yrs gives the largest loss. A frequency past the last point gives 0. |
| Interpolation.LossAtPeriodBounds | cattbl/yelt.py:143-152 | For any curve: NaN iff rp <= 0. Below the first ExFreq the result is the first loss; past the last ExFreq it is 0. |
| Interpolation.LossAtPeriodMonotone | cattbl/yelt.py:143-152 | On falling, non-negative losses each result lies in [0, first loss], and a longer period never gives less. |
| Interpolation.LossAtPointPeriod | cattbl/yelt.py:149-152 | At the period `1/ExFreq` of a curve point, the result is that point's loss. |
| Interpolation.LossAtRecordedReturnPeriod | cattbl/yelt.py:149-152 | At the return period of a recorded loss, the result is that loss. |
| Interpolation.LossAtRpMonotone | cattbl/yelt.py:143-152 | For non-negative losses each result lies in [0, max loss], and a longer return period never gives a smaller loss. |
| Layer.Penetration | cattbl/yelt.py:197-200 | The clipped value never exceeds a limit and is non-negative when the limit is. It is 0 for a loss at or below xs, and `loss - xs` when that lies within the limit. |
| Layer.Layered | cattbl/yelt.py:191-215 | Every output record is a survivor of the layer, and there are at most as many as input records. |
| Layer.HeadPerYear | cattbl/yelt.py:212 | `groupby(Year).head(k)` keeps only input records, and at most as many. |
| Layer.Clipped | cattbl/yelt.py:197-200 | One record per input record, in the same position and with the same key, carrying the loss's penetration. |
| Layer.AddAttachment | cattbl/yelt.py:205-206 | One record per input record, in the same position and with the same key, with xs added to its loss. |
| Layer.ApplyLayer | cattbl/yelt.py:191-215 | The method fails exactly when `xs < 0`. Otherwise it returns `Layered` of the records. |
| Layer.ClipLosses | cattbl/yelt.py:197-200 | The loop computes the clipped excess of every loss. |
| Layer.KeepPositive | cattbl/yelt.py:203 | The loop keeps the records whose layered loss is above zero. |
| Layer.AddBack | cattbl/yelt.py:205-206 | The loop adds the attachment to every loss. |
| Layer.CapPerYear | cattbl/yelt.py:209-213 | The loop counts the records seen in each year and keeps a record while its year's count is below k. |
| Layer.SortChrono | cattbl/yelt.py:211 | `sort_index` returns a permutation in (Year, DayOfYear, EventID) order. |
| Layer.PenetrationIsExcess | cattbl/yelt.py:197-203 | A loss survives the clip iff it is above xs and the limit is positive, and it then pays `min(loss - xs, limit)`. |
| Layer.SurvivorsSound | cattbl/yelt.py:196-206 | Every surviving record has an input key, and its input loss was above xs. Its value is `min(loss - xs, limit)`, in (0, limit], with xs added for a franchise. |
| Layer.SurvivorsComplete | cattbl/yelt.py:196-206 | Every input record that penetrates the layer survives. |
| Layer.LayeredSound | cattbl/yelt.py:191-215 | The same holds for the output, with or without the occurrence cap. |
| Layer.LayeredComplete | cattbl/yelt.py:196-206 | Without a cap, every penetrating record is in the output. |
| Layer.FranchisePaysFull | cattbl/yelt.py:205-206 | A franchise output exceeds xs, and it equals the original loss iff the limit did not cut the excess. |
| Layer.IdentityLayer | cattbl/yelt.py:196-206 | With no limit, xs 0, no cap and no franchise, the output is exactly the positive-loss records, unchanged. |
| Layer.HeadPerYearOfYear | cattbl/yelt.py:212 | `groupby(Year).head(k)` keeps the first k records of each year, in table order. |
| Layer.HeadPerYearSorted | cattbl/yelt.py:212 | `groupby(Year).head(k)` keeps the input's order: a table sorted by any relation gives an output sorted by it. |
| Layer.CappedIsChronological | cattbl/yelt.py:209-213 | With `n_loss` set, the whole output is in (Year, DayOfYear, EventID) order. |
| Layer.OfYearSorted | cattbl/yelt.py:211 | One year's records taken from a chronologically sorted table are in chronological order. |
| Layer.OfYearPermutation | cattbl/yelt.py:211 | Reordering a table reorders each year's records and keeps the same ones. |
| Layer.OccurrenceCap | cattbl/yelt.py:209-213 | With `n_loss = k`, each year keeps the first k of its survivors in (Year, DayOfYear, EventID) order, whatever their size. That is at most k records, and a year with at most k survivors keeps them all. |
| Layer.LayerAal | cattbl/yelt.py:217-225 | `layer_aal` fails exactly when `xs < 0`. Without a cap it is the layer's payment on every input record, summed and divided by `n_yrs`, so dropping the records that pay nothing changes nothing. With a cap it is at most that. |
| Layer.SurvivorsTotal | cattbl/yelt.py:196-206 | The records that reach the layer carry exactly the layer's payments on all input records. |
| Layer.SurvivorsSnoc | cattbl/yelt.py:196-206 | One more input record adds its paid record to the survivors, or nothing when it does not penetrate. |
| Layer.HeadPerYearTotal | cattbl/yelt.py:209-213 | On losses above zero, the occurrence cap never raises the total. |
| Layer.LayeredTotal | cattbl/yelt.py:191-215 | The layered total equals the payments without a cap and is at most the payments with one. |
| Layer.LayeredTotalNonNegative | cattbl/yelt.py:191-215 | With `xs >= 0` the layered losses have a non-negative total. |
| Layer.LayerAalNonNegative | cattbl/yelt.py:217-225 | For `xs >= 0`, `layer_aal` is never negative. |
| Layer.IdentityLayerAal | cattbl/yelt.py:217-225 | For non-negative losses, the layer that keeps everything has the table's `aal`. |
| Layer.TotalLossOfPositive | cattbl/yelt.py:203 | For non-negative losses, dropping the zero losses keeps the total. |
| Layer.ExampleLayer | cattbl/yelt.py:196-203 | With attachment 20 and limit 50, a loss of 100 pays 50 and a loss of 10 is dropped. |

## Left out

- `from_csv` (cattbl/yelt.py:331-344): file I/O through `pd.read_csv`.
- `from_df` (cattbl/yelt.py:294-328): column renaming and dtype coercion with warnings.
- Accessor registration (cattbl/yelt.py:14): there is no extension mechanism in the model.
- `is_valid` (cattbl/yelt.py:61-64) always returns true.
- The integer and numeric dtype checks (cattbl/yelt.py:38-46): keys are `int` and losses `real` by type, so these checks can never fail.
- `to_ep_summary` and `to_ep_summaries` (cattbl/yelt.py:227-256): they call a `ylt` accessor that is not part of this model. They also call `renaem` (line 247) and `.rename` on a numpy array (line 251).
- `**kwargs` passed through to `pandas.rank` and to the curve builders: the default ranking options are modelled.
- NaN losses, and IEEE floating-point rounding: losses are exact reals.
- Insertion order of tied rows: among curve rows that agree on every sort key, the code fixes no order. `Curves.EfTable` and `Curves.SeverityTable` promise only a sorted permutation.
- `Interpolation.LossAtRp`: an empty table makes `iloc[0]` raise; the model takes a non-empty table as a precondition.
- The series name (cattbl/yelt.py:106, 113, 143, 151, 171, 179): `to_ef_curve`, `to_severity_curve` and `loss_at_rp` read the column `'Loss'`, which exists only when the series itself is named `Loss`. `_validate` never checks the name, so a validated series with another name raises `KeyError` there. The model's table carries no name and always takes the name to be `Loss`, which is what `from_cols` (cattbl/yelt.py:291) returns.
- `Layer.ApplyLayer`: the model's output is a sequence of records and carries no `n_yrs`. The pandas steps keep the YELT's attrs, so the output's `n_yrs` is the table's `nYrs`, which is what `Layer.LayerAal` divides by.
- `Layer.ApplyLayer`: `n_loss` is a natural number. Negative `head(n)` arguments, whose meaning depends on the pandas version, are not modelled.
- `Ylt.ToYlt`: the model's YLT is a sequence of (year, loss) entries and carries no `n_yrs`. The grouped series keeps the YELT's attrs, so its `n_yrs` is the table's `nYrs`.
