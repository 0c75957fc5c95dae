# Load-flexibility pipeline, modelled in Dafny

The Python scripts keep, for every electricity client (identified by its
`scno`), the hourly consumption history in a relational table. They turn
that history into a load-flexibility profile and rank the clients against
each other. This project models the core of those scripts and proves what
they promise:

- **Incremental sync** (flexibility_pred.py). This covers parsing the
  `hour` field of a remote entry, and computing the missing date window
  from the last stored date or a 60-day lookback through yesterday. It then
  fetches that window one day at a time from a remote source, skipping 404
  days, failed days and malformed entries. The fetched rows are upserted
  into a table keyed by (scno, date, hour), in insert pages of 100, as
  `execute_values` does.
- **Per-client metrics** (`calculate_flexibility` in three scripts,
  `calculate_dlss` in combined.py). These are Load Factor (LF), the Load
  Variability Index (LVI) and the Daily Load Shape Stability (DLSS), plus
  the peak-hour ratio.
- **Cohort normalisation and ranking** (`rank_clients`). Each metric is
  min-max normalised with LF and DLSS flipped. Clients with a missing
  metric, or whose cohort has no spread, are dropped. The index is the
  mean of the three norms, cut to 70 % when less than 30 % of the client's
  consumption falls in peak hours. Clients are ranked with pandas'
  `method="min"` competition ranking.
- **Calendar splits** (weekend_weekday.py, dlss.py, combined.py). These
  cover the weekday/weekend split and the weekday/Saturday/Sunday split,
  the ignore list, and each script's per-client loop.
- **Threshold classifier** (categories.py). It sets the consumption level
  and the variability level from the average and the coefficient of
  variation (CV), and builds the category label.

Modules and files:

| file | module | models |
|---|---|---|
| wrappers.dfy | `Wrappers` | `Option`, `Result` |
| stats.dfy | `Stats` | sum, mean, max, min, the NaN filter; standard deviation and Pearson correlation as parameters with stated properties |
| hour_field.dfy | `HourField` | `parse_hour_field` and `float()` on the decimal grammar |
| fetch.dfy | `Fetch` | `fetch_consumption` against a remote-source function |
| store.dfy | `Store` | the consumption table (a class over a map), the upsert, `MAX(date)`, the sync window |
| metrics.dfy | `Metrics` | `calculate_flexibility` |
| ranking.dfy | `Ranking` | `rank_clients`, with and without the off-peak penalty |
| flex_pipeline.dfy | `FlexPipeline` | `process_client` and the collection step of `main` in flexibility_pred.py |
| periods.dfy | `Periods` | day of week, day filters, `IGNORE_SCNOS` |
| weekend_weekday.dfy | `WeekendWeekday` | the `main` loop of weekend_weekday.py |
| dlss_days.dfy | `DlssDays` | the `main` loop of dlss.py |
| dlss_only.dfy | `DlssOnly` | `calculate_dlss` and the `main` loop of combined.py |
| categories.dfy | `Categories` | the level rules and the average/CV/category block of categories.py |

Modelling conventions:

- **Days.** A day is an `int` counting days from 1970-01-01, which was a
  Thursday.
- **Consumption.** Consumption is an exact `real`.
- **NaN and missing values.** `None`, and every NaN the pandas code
  produces and then drops or tests, are `Option.None`.
- **The two square-root estimators.** `Series.std()` and `np.corrcoef`
  are the fields of an `Estimators` value. Lemmas that need more than
  "some function" require `ValidEstimators`:
  - the deviation is non-negative, and zero exactly for constant data;
  - a correlation is undefined exactly when one side is constant;
  - a defined correlation lies in [-1, 1];
  - a non-constant series correlates to 1 with itself.
- **I/O.**
  - The remote API is a function `Day -> Response`.
  - The consumption table is the `Store.ConsumptionStore` class.
  - A script's `SELECT … FROM consumption WHERE scno = …` is a parameter
    `readings: string -> seq<Row>`.

Where the code and the system's design notes disagree, the model follows
the code:

- **Ranking.** The design notes call the ranking dense with no gaps. The
  code ranks with `method="min"`, so the ranks after a tie are skipped
  (0.9, 0.9, 0.5 are ranked 1, 1, 3; `Ranking.CompetitionRankingExample`).
- **Penalty reason text.** The code sets "Less Flexible — already in
  off-peak" and "Normal", not the wording of the notes.
- **LF range.** The notes give LF ∈ [0, 1]; the model proves the sharper
  (0, 1].

## Model

| member | source | states |
|---|---|---|
| HourField.ParseHourField | flexibility_pred.py:42-49 | a success is an hour in 0..23; a missing value fails with "hour is None" |
| HourField.Strip | flexibility_pred.py:45 | `str.strip()`: the result is no longer than the input and neither starts nor ends with a Python whitespace character |
| HourField.StripEmptyIff | flexibility_pred.py:45 | stripping leaves nothing exactly when every character is whitespace |
| HourField.StripUnchanged | flexibility_pred.py:45 | text that starts and ends with a non-space character is left as it is |
| HourField.IndexOf | flexibility_pred.py:45 | `split(":")[0]` ends at the first ':', or takes the whole text when there is none |
| HourField.SignedNumber | flexibility_pred.py:46 | a leading '-' or '+' is read as a sign: the text parses exactly when its magnitude does, and '-' negates it |
| HourField.Truncate | flexibility_pred.py:46 | `int()` of a float truncates toward zero: down for a non-negative value, up for a negative one |
| HourField.ParseConsumption | flexibility_pred.py:70 | `float(None)` fails, and a parsed consumption is non-negative |
| HourField.ParseDigitsHour | flexibility_pred.py:45-49 | a bare digit string parses to its value when it is at most 23 and otherwise raises the range error with that value |
| HourField.NegativeDigitsHour | flexibility_pred.py:46-48 | "-n" for n ≥ 1 raises the range error with -n |
| HourField.NegativeWholeHour | flexibility_pred.py:46-48 | the decimal text of any negative whole hour is rejected with that hour as the out-of-range value |
| HourField.NegativeZeroHour | flexibility_pred.py:45-49 | "-0:…" is accepted as hour 0 |
| HourField.NegativeFractionTruncated | flexibility_pred.py:46-49 | "-0.ddd" truncates toward zero and is accepted as hour 0, rather than floored to -1 |
| HourField.ConsumptionTextRoundTrip | flexibility_pred.py:70 | the decimal text of every whole consumption reads back as that value |
| HourField.HourTextRoundTrip | flexibility_pred.py:45-49 | every hour written "HH:00" parses back to that hour |
| HourField.NumberTextRoundTrip | flexibility_pred.py:45-49 | every hour sent as a bare number ("6") parses back to that hour |
| HourField.FractionTruncated | flexibility_pred.py:46 | `int(float(…))` truncates: "h.ddd" parses to h for every fraction |
| HourField.TwentyFourRejected | flexibility_pred.py:47-48 | "24:00" raises the out-of-range error with 24, rather than wrapping to 0 |
| HourField.ParseDigitsColon | flexibility_pred.py:45-49 | text before the first ':' is what is parsed; digits then ':' give the digits' value, or the range error |
| HourField.ParseFraction | flexibility_pred.py:46 | "digits.digits" reads as the integer part plus a fraction in [0, 1) |
| HourField.DecimalValue | flexibility_pred.py:46 | the floor of a parsed decimal is its integer part |
| HourField.Fraction | flexibility_pred.py:46 | a fractional part lies in [0, 1) |
| HourField.ParseDecimal | flexibility_pred.py:46 | a parsed number is non-negative |
| HourField.NumberTextValue | flexibility_pred.py:45 | the decimal text of n reads back as n |
| Fetch.EntryReading | flexibility_pred.py:66-73 | an entry yields a reading exactly when it is an object with both fields, its hour parses and its consumption parses; the reading is the requested scno and day with the parsed hour and consumption |
| Fetch.ReadPrefix | flexibility_pred.py:66-67 | the entries handled before a null, number or boolean entry ends the day: none of them is one, and the next entry is one |
| Fetch.ScalarEndsDay | flexibility_pred.py:66-75 | a null, number or boolean entry makes `"hour" in e` raise: the entries before it are kept and the rest of the day is dropped |
| Fetch.NoScalarReadWhole | flexibility_pred.py:66-73 | a day with no such entry yields the readings of all its entries |
| Fetch.ObjectEntryReading | flexibility_pred.py:67-71 | an object with an "HH:00" hour and a whole consumption yields the reading of that hour and value |
| Fetch.FetchConsumption | flexibility_pred.py:52-77 | the loop returns the readings of every day of [start, end] in day order, and requests exactly the days of the window |
| Fetch.AppendEntries | flexibility_pred.py:65-73 | the entry loop appends exactly the readings of the parseable entries, in list order |
| Fetch.WindowExact | flexibility_pred.py:54-76 | each day of [start, end] is requested once, in increasing order; start > end requests nothing |
| Fetch.WindowMembers | flexibility_pred.py:54-76 | a day is requested exactly when it lies in [start, end] |
| Fetch.FetchSpec | flexibility_pred.py:52-77 | every fetched row has the requested scno, a date in the window, an hour in 0..23 and a non-negative consumption |
| Fetch.FetchDatesOrdered | flexibility_pred.py:55-76 | fetched rows come in non-decreasing date order |
| Fetch.FetchSplit | flexibility_pred.py:55-76 | the readings of a window are the readings of its two halves, concatenated |
| Fetch.FailedDaySkipped | flexibility_pred.py:58-75 | a 404 or failed day contributes nothing and leaves the other days' readings unchanged |
| Fetch.MalformedEntrySkipped | flexibility_pred.py:67-73 | a malformed entry is dropped without affecting the entries around it |
| Fetch.EntryRowsAppend | flexibility_pred.py:66-73 | the readings of two entry lists are the readings of each, concatenated |
| Fetch.FetchLocality | flexibility_pred.py:55-76 | the result depends only on the source's answers for days inside the window |
| Store.ConsumptionStore.UpsertBatch | flexibility_pred.py:154-161 | the batch is applied exactly when no insert page of 100 repeats a key; otherwise the table is unchanged (nothing committed); a well-formed table stays well-formed |
| Store.Upserted | flexibility_pred.py:154-160 | no stored key is lost, every row's key is stored, and the last row is stored as sent |
| Store.ConsumptionStore.ApplyPage | flexibility_pred.py:155-160 | one page's rows are inserted or overwrite the stored consumption, in order, keeping the table well-formed |
| Store.ConsumptionStore.LastDate | flexibility_pred.py:142-144 | the result is the client's latest stored date, or None when it has no rows |
| Store.ConsumptionStore.ClientRows | flexibility_pred.py:169 | the rows are exactly the client's stored (date, hour, consumption) rows, each (date, hour) once |
| Store.SyncClient | flexibility_pred.py:141-161 | the requested days are the window after the last stored date (or from the lookback start) through yesterday; the table becomes the upsert of exactly that window's readings, or stays unchanged when the insert raises; the table stays well-formed |
| Store.UpsertedKeys | flexibility_pred.py:155-159 | a key is stored afterwards exactly when it was stored before or the batch carries it |
| Store.UpsertedUntouched | flexibility_pred.py:158-159 | a key the batch does not carry keeps its value |
| Store.UpsertedLastWins | flexibility_pred.py:158-159 | a batch key ends with the consumption of its last occurrence |
| Store.UpsertedOverride | flexibility_pred.py:158-159 | the upsert overrides the old table with the batch's own map, and changes nothing else |
| Store.UpsertIdempotent | flexibility_pred.py:154-160 | upserting the same batch twice gives the same table as once |
| Store.UpsertedWellFormed | flexibility_pred.py:154-160 | stored hours stay in 0..23 and consumption stays non-negative |
| Store.SyncWindow | flexibility_pred.py:146-150 | a day is requested exactly when it is after the last stored date (or from the lookback start) and before today |
| Store.UpToDateNoRequests | flexibility_pred.py:146-150 | a client already stored through yesterday triggers no request |
| Store.LastDateUnique | flexibility_pred.py:142-144 | the latest stored date is determined by the stored keys |
| Store.ClientRowsEmptyIff | flexibility_pred.py:169-171 | the `SELECT` comes back empty exactly when the table holds no row of the client |
| Store.LookbackStart | flexibility_pred.py:213-214 | the lookback start is 60 days before yesterday, so a first sync covers the 61 days ending yesterday |
| FlexPipeline.ProcessClient | flexibility_pred.py:126-182 | an already-processed client is skipped with the table unchanged; otherwise the table is synced from the latest stored date, once the insert is accepted the rows read back are exactly the client's stored rows, and a result exists exactly when the insert was accepted and the client has stored rows; that result holds the LF, LVI and DLSS of those rows |
| FlexPipeline.RunPipeline | flexibility_pred.py:225-238 | client by client, the table passes through the syncs and each client yields what `process_client` yields for it; the results are those, in client order, each of a listed client not processed today and without a peak ratio; the ranking is `rank_clients` of the results |
| FlexPipeline.TraceExtend | flexibility_pred.py:225-233 | handling the next client extends the record of tables and outcomes by that client's step |
| FlexPipeline.Collected | flexibility_pred.py:230-233 | there are no more results than clients, and each result is the one some client yielded |
| FlexPipeline.StoredCell | flexibility_pred.py:169 | the metrics see the stored table: each pivot cell is the stored consumption, or 0 where none is stored |
| FlexPipeline.CellOfUniqueRow | flexibility_pred.py:86 | with one row per (date, hour), the grouped sum is that row's consumption |
| FlexPipeline.ClientRowsNonNegative | flexibility_pred.py:169 | rows read back from the table are non-negative with hours in 0..23 |
| FlexPipeline.PipelineNeverPenalises | flexibility_pred.py:111-123 | without a peak ratio, no ranked client is penalised and each keeps its unpenalised index |
| Stats.Present | flexibility_pred.py:102-105 | the NaN filter keeps exactly the defined values |
| Stats.PresentAppend | flexibility_pred.py:102-105 | filtering a concatenation is filtering each part: the order of the defined values is kept |
| Stats.PresentCount | flexibility_pred.py:102-105 | each defined value survives the filter exactly as many times as it occurs |
| Stats.PresentEmptyIff | flexibility_pred.py:106 | nothing survives the filter exactly when every value is undefined |
| Stats.MeanWithin | flexibility_pred.py:91 | a mean lies between any bounds of its elements |
| Stats.MeanZeroIff | flexibility_pred.py:95 | the mean of non-negative values is non-negative, and zero exactly when all are zero |
| Stats.SumZeroIff | flexibility_pred.py:94 | a non-negative sum is zero exactly when every term is zero |
| Stats.Max | flexibility_pred.py:88 | the maximum bounds every element and is one of them |
| Stats.Min | flexibility_pred.py:116-118 | the minimum bounds every element from below and is one of them |
| Metrics.Dates | flexibility_pred.py:89-94 | the grouped dates: no duplicates, and exactly the dates of the rows |
| Metrics.Calculate | flexibility_pred.py:80-108 | None exactly for an empty frame; otherwise LF, LVI, DLSS and the peak ratio, each computed on its own |
| Metrics.CellAbsent | dlss.py:47 | a (date, hour) cell with no reading is filled with 0 |
| Metrics.CellAppend | combined.py:33 | readings sharing a (date, hour) are summed |
| Metrics.LoadFactor | flexibility_pred.py:86-91 | LF is None exactly when no date has a defined mean/max ratio; a defined LF lies in (0, 1] for non-negative data |
| Metrics.LoadFactorNoneIff | flexibility_pred.py:87-91 | LF is None exactly when every reading is zero (no date has a non-zero maximum) |
| Metrics.DayRatioRange | flexibility_pred.py:88-89 | each qualifying date's mean/max lies in (0, 1] |
| Metrics.LviNoneIff | flexibility_pred.py:94-95 | LVI is None exactly with fewer than two dates or all-zero readings (a zero mean daily total) |
| Metrics.Lvi | flexibility_pred.py:94-95 | fewer than two dates give None; a defined LVI is non-negative, and zero exactly when every daily total is equal |
| Metrics.DailyTotalsZeroIff | flexibility_pred.py:94 | the daily totals are all zero exactly when every reading is zero |
| Metrics.Typical | dlss.py:50 | the typical day is, hour by hour, the mean over the date columns |
| Metrics.CorrelationsOf | dlss.py:51-54 | one correlation per date column, against the typical day |
| Metrics.Dlss | flexibility_pred.py:99-100 | fewer than two date columns give None |
| Metrics.DlssRange | flexibility_pred.py:106 | a defined DLSS lies in [-1, 1] |
| Metrics.DlssNoneIff | flexibility_pred.py:100-106 | with two or more dates, DLSS is None exactly when the typical day is flat or every date column is flat |
| Metrics.DlssIdenticalDays | dlss.py:47-55 | days that all repeat one non-flat shape give DLSS exactly 1 |
| Metrics.SingleDateMetrics | flexibility_pred.py:94-100 | a single date yields a result with LVI and DLSS both None |
| Metrics.PeakRatio | weekend_weekday.py:57-60 | the ratio is 0 when the total is not positive |
| Metrics.PeakRatioRange | weekend_weekday.py:57-60 | the peak ratio lies in [0, 1] for non-negative data |
| Metrics.PeakWithinTotal | weekend_weekday.py:58-59 | peak-hour consumption is between 0 and the total |
| Ranking.Complete | flexibility_pred.py:114 | the kept rows are exactly the rows with LF, LVI and DLSS all present |
| Ranking.CompleteAppend | flexibility_pred.py:114 | `dropna` on a concatenation is `dropna` on each part: the order of the kept rows is kept |
| Ranking.CompleteCount | flexibility_pred.py:114 | a complete row survives `dropna` as often as it occurs, an incomplete one never |
| Ranking.Normalise | flexibility_pred.py:116-120 | one scored row per client in order, or none at all when the cohort is empty or some metric has no spread |
| Ranking.NormsInRange | weekend_weekday.py:72-77 | every norm and the unpenalised index lie in [0, 1] |
| Ranking.NormExtremes | weekend_weekday.py:72-74 | smallest LF and DLSS get norm 1 and largest 0; smallest LVI gets 0 and largest 1 |
| Ranking.NormMonotone | weekend_weekday.py:72-74 | a larger LF or DLSS never gets a larger norm; a larger LVI never gets a smaller one |
| Ranking.ScaleRange | weekend_weekday.py:72-74 | a min-max scaled value lies in [0, 1], 0 at the minimum and 1 at the maximum |
| Ranking.PenaltyRule | weekend_weekday.py:79-83 | a peak ratio below 0.3 multiplies the index by 0.7 and sets the off-peak reason; any other row keeps its index and "Normal" |
| Ranking.Penalise | weekend_weekday.py:79-83 | the penalty keeps the client and its unpenalised index, and a not-yet-penalised row whose index lies in [0, 1] afterwards obeys the off-peak rule |
| Ranking.NoPeakRatioNoPenalty | flexibility_pred.py:121 | a row without a peak ratio is never penalised |
| Ranking.AssignRanks | weekend_weekday.py:85 | each rank is 1 plus the number of strictly larger indices |
| Ranking.RankOrder | weekend_weekday.py:85 | ranks lie in 1..n; equal indices share a rank; a larger index gets a strictly smaller rank |
| Ranking.TopRankIsOne | weekend_weekday.py:85 | a non-empty cohort always has a rank-1 client |
| Ranking.CompetitionRankingExample | weekend_weekday.py:85 | indices 0.9, 0.9, 0.5 are ranked 1, 1, 3 |
| Ranking.SortByRank | weekend_weekday.py:87 | the output is ordered by rank and is a permutation of its input |
| Ranking.RankClientsOutput | weekend_weekday.py:85-87 | the output is sorted by rank, has one row per ranked client, each rank is 1 plus the number of output rows with a larger index, and every row obeys the off-peak rule |
| Ranking.RankClientsOrder | weekend_weekday.py:85-87 | in the output, equal indices share a rank and a larger index has a smaller rank |
| Ranking.RankClientsEmptyIff | flexibility_pred.py:114-120 | nothing is ranked exactly when no client is complete or some metric has no spread |
| Ranking.SingleClientDropped | flexibility_pred.py:116-120 | a lone complete client is always dropped (0/0) |
| Ranking.RankClients | weekend_weekday.py:69-87 | the output is sorted by rank, has at most one row per input client, and every ranked row is one of the input clients |
| Ranking.RankPeriod | weekend_weekday.py:86 | every output row carries the period label and wraps the ranked row in order |
| Ranking.RankPeriodEmpty | weekend_weekday.py:66-67 | an empty input ranks to nothing |
| Periods.DayOfWeek | weekend_weekday.py:107 | pandas' day of week lies in 0..6 |
| Periods.RowsOn | weekend_weekday.py:109-110 | the filtered frame holds exactly the rows whose day of week is selected |
| Periods.Eligible | weekend_weekday.py:95 | the client list keeps exactly the clients not in `IGNORE_SCNOS` |
| Periods.DayNamesAgree | dlss.py:84-86 | Monday to Friday, Saturday and Sunday by name are day numbers 0-4, 5 and 6; the weekend is day number 5 or more |
| Periods.WeekdayWeekendPartition | weekend_weekday.py:107-110 | the weekday and weekend frames hold every row exactly once |
| Periods.WeekdaySaturdaySundayPartition | dlss.py:84-86 | the Monday–Friday, Saturday and Sunday frames hold every row exactly once |
| Periods.WeekendMembership | weekend_weekday.py:107-110 | a row is in the weekend frame exactly when its date is a Saturday or a Sunday |
| Periods.SplitDays | dlss.py:84-86 | filtering on disjoint day sets splits the rows of their union |
| Periods.CalendarAnchor | weekend_weekday.py:106-107 | day 0 is a Thursday and the day of week repeats every 7 days |
| WeekendWeekday.RankPeriods | weekend_weekday.py:94-130 | the two rankings are `rank_clients` of the weekday and weekend results of the non-ignored clients, labelled "Weekday" and "Weekend" |
| WeekendWeekday.PeriodResultsMembers | weekend_weekday.py:100-127 | a client has a period entry exactly when it has rows on that period's days; the entry holds that frame's four metrics |
| WeekendWeekday.PeriodResultsHavePeakRatio | weekend_weekday.py:117-126 | every period entry carries its peak ratio |
| WeekendWeekday.RankedRowSource | weekend_weekday.py:129-130 | every ranked row is a non-ignored client with rows in that period, carrying that period's metrics and label |
| WeekendWeekday.WeekdayOnlyClient | weekend_weekday.py:109-127 | a client without weekend rows has no weekend entry, and its weekday entry holds the metrics of all its rows |
| WeekendWeekday.WeekdayFrameIsAll | weekend_weekday.py:109-110 | without weekend rows the weekday frame is the whole frame |
| DlssDays.CollectPeriods | dlss.py:75-110 | the three lists are exactly the weekday, Saturday and Sunday results of the non-ignored clients |
| DlssDays.NormaliseOptional | dlss.py:92 | None stays None and a value stays defined |
| DlssDays.DayResultsMembers | dlss.py:99-110 | a Saturday (Sunday) entry exists exactly when that frame's DLSS is defined, and holds (dlss + 1) / 2 |
| DlssDays.DayEntryAgrees | dlss.py:99-110 | a stored Saturday or Sunday value lies in [0, 1] and equals combined.py's `calculate_dlss` of the same frame |
| DlssDays.WeekdayResultsMembers | dlss.py:89-96 | a weekday entry exists exactly when the client has weekday rows, and holds that frame's metrics with DLSS rescaled |
| DlssDays.WeekdayEntryAgrees | dlss.py:89-96 | a weekday entry's LF, LVI and peak ratio are the weekday frame's, and its DLSS is combined.py's `calculate_dlss` of it |
| DlssOnly.CalculateDlss | combined.py:27-51 | `calculate_dlss` is None exactly when the DLSS of `calculate_flexibility` is None, and otherwise is that DLSS rescaled |
| DlssOnly.CalculateDlssRange | combined.py:50-51 | a defined result lies in [0, 1] |
| DlssOnly.NormaliseDlss | combined.py:51 | (d + 1) / 2 is undone by 2x - 1, and d lies in [-1, 1] exactly when the result lies in [0, 1] |
| DlssOnly.NormaliseDlssMonotone | combined.py:51 | the rescaling keeps order |
| DlssOnly.IdenticalDaysScoreOne | combined.py:39-51 | days that all repeat one non-flat shape score exactly 1 |
| DlssOnly.CollectDlss | combined.py:66-85 | the collected tuples are exactly those of the non-ignored clients with rows, in client order |
| DlssOnly.CollectedMembers | combined.py:70-85 | a listed client has a tuple exactly when it has readings; the tuple holds the three rescaled DLSS values |
| DlssOnly.CollectedCount | combined.py:81-85 | one tuple per client with readings, never more than the clients |
| DlssOnly.IgnoredNeverStored | combined.py:60 | an ignored client never gets a tuple |
| Categories.ConsumptionLevel | categories.py:80-86 | High exactly from 200, Medium exactly in [50, 200), Low exactly below 50 |
| Categories.ConsumptionLevelMonotone | categories.py:80-86 | a larger average never yields a lower consumption level |
| Categories.VariabilityLevel | categories.py:89-94 | High exactly from a CV of 40, otherwise Low; never Medium |
| Categories.VariabilityLevelMonotone | categories.py:89-94 | a larger CV never yields a lower variability level |
| Categories.FinalCategory | categories.py:141 | both levels can be read back from the category label |
| Categories.FinalCategoryInjective | categories.py:141 | two labels are equal exactly when both levels are equal |
| Categories.Categorise | categories.py:128-129 | None exactly for no rows |
| Categories.SingleRowLowVariability | categories.py:133 | a single row has CV 0 and low variability |
| Categories.ZeroAverageZeroCv | categories.py:136 | a zero average gives CV 0, not a division by zero |
| Categories.CvRange | categories.py:132-136 | for non-negative rows the CV is non-negative, and zero exactly when all rows are equal or the average is zero |

## Left out

- HTTP and SQL I/O are left out. The remote API is a function parameter,
  and the consumption table is an in-memory map. The scripts'
  `pd.read_sql` is a `readings` parameter, and `CREATE TABLE` is not
  modelled.
- `fetch_clients` and the `clients` table upsert (flexibility_pred.py:30-39,
  216-221) are not modelled. The client list is a parameter, and client
  names (`short_name`) are not carried.
- The clock is not modelled:
  - `today` is a parameter;
  - `process_client`'s "already processed today" check is a boolean
    parameter;
  - `main`'s "all clients processed today" early exit
    (flexibility_pred.py:195-210) is not modelled.
- FlexPipeline.RunPipeline: the thread pool is run one client at a time.
  Clients share only the table, and each touches only its own rows, but
  the model does not prove that interleavings give the same table. Results
  are collected in client order rather than completion order, which can
  only change the order of tied rows after ranking.
- The writes of the rankings and metrics to `flexibility_metrics` and
  `dlss_results` are not modelled. This covers flexibility_pred.py:236-251,
  weekend_weekday.py:134-177, dlss.py:112-149 and
  combined.py:87-100.
- The `execute_values` of combined.py relies on distinct client scnos.
  The model does not track it.
- Floating point is not modelled; arithmetic is exact.
  - `Series.std()` and `np.corrcoef` are abstract estimators with stated
    properties.
  - `replace([inf, -inf])` is not modelled separately. With exact
    arithmetic a zero spread gives 0/0, which is NaN and not an infinity.
- HourField.ParseHourField: `float()` on the hour text is read on
  optionally signed decimals (`digits`, `digits.digits`, `.digits`,
  `digits.`, after stripping Python's whitespace). Exponents, `inf`/`nan`
  and underscores count as not a number, so an exponent form such as
  "1e1", which Python reads as 10, is rejected by the model.
- HourField.ParseConsumption: `float()` of the JSON consumption value is
  read on unsigned decimal text only. Python also accepts `true` (1.0),
  negative and signed numbers, exponents, `inf` and `nan`, and such a
  reading would be stored. The model skips those entries instead. This is
  where the non-negative consumption assumed by `Store.WellFormedBatch`,
  `Store.WellFormedTable` and `FlexPipeline.ClientRowsNonNegative` comes
  from; the source itself guarantees no sign.
- Fetch.EntryReading: an object entry's fields are absent, `null` or the
  text `str(value)`; a numeric, boolean or nested value is given by that
  text. Other entries are `Scalar` (null, a number or a boolean, on which
  `"hour" in e` raises and the rest of the day is abandoned) or
  `Container` (a string or a list, which `in` searches and which is then
  skipped, as indexing it with "hour" raises inside the inner `try`).
- Metrics.Dates: dates are in first-appearance order, not pandas' sorted
  order. Each metric is a symmetric aggregate over dates. The model does
  not prove this order-independence.
- Store.ConsumptionStore.ClientRows: the order of rows read back is
  unspecified, as in SQL without `ORDER BY`. The contract fixes only the
  rows' contents.
- Ranking.SortByRank: rows with equal rank are kept in input order. pandas'
  default sort leaves that order unspecified, so this is one of the
  possible orders.
- categories.py's own sync, client loop and table writes
  (categories.py:34-72, 100-121, 143-227) are not modelled. Only the level rules
  and the statistics block are.
