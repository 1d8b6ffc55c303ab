# menapiai-data-pipeline: the BLS / Redfin core in Dafny

This project models the deterministic core of the `menapiai_data_pipeline`
package and proves properties of it. The package pulls BLS LAUS employment
series and Redfin city-level housing data, caches the raw artifacts for a
day, and turns them into canonical tables. What is modelled:

- **The two raw-data caches** (`ingest_employment_bls` and
  `ingest_housing_redfin`) live in module `Ingestion`.
  - Today's cache path: `bls_employment_<YYYYMMDD>.json` or
    `redfin_housing_<YYYYMMDD>.tsv.gz` under the raw directory.
  - The decision rule:
    - a non-empty local path is used verbatim;
    - otherwise a file strictly younger than 24 hours is reused;
    - otherwise the data is downloaded again.
  - What a download leaves on disk. The clock, the file system and the
    network's answer are parameters.
  - The BLS request payload.
- **The LAUS series-identifier codec.** Module `LausSeriesId` covers
  `_build_series_ids`, `_parse_series_id`, the measure codes 03–06 and the
  requested series list.
- **The metro table** `BLS_METRO_AREAS` and the lookup `_find_metro_name`
  (module `Metros`).
- **The city/state → CBSA table** and its lookup (module `Regions`).
- **The employment transform** `transform_employment_bls_to_canonical`,
  modules `EmploymentPivot` and `EmploymentTransform`.
  - The checks run in the code's order: file, metro, dates, window, status,
    series.
  - Series are filtered by identifier, metro and measure. Points are filtered
    by period, value and the first-of-month window.
  - Retained points are merged into one record per (year, month) with
    last-write-wins.
  - Metadata is stamped, and the records are sorted by (year, month).
- **The partition slug** `slugify` and the partition key (module `Slug`).
- **The Redfin housing transform** `transform_housing_redfin_to_canonical`
  (module `HousingTransform`). It is a per-row rename into six columns, with
  `region_id = CITY + "_" + STATE`.

Properties are proved in the same modules or in companion modules:
`EmploymentProperties`, `EmploymentOrder`, `AnnualAverage`,
`IngestionProperties` and `HousingProperties`.

Behaviours of the code worth stating up front, all of which the model
reproduces:
- `slugify` deletes characters outside `[a-z0-9_ ]` instead of replacing
  them, and does not collapse runs. So "Condo/Co-op" becomes "condoco_op"
  (`Slug.SlashIsDeleted`), and two spaces become two underscores
  (`Slug.RunsNotCollapsed`).
- The housing transform does no city, state, date or property-type
  filtering, and produces no `period_end`, `property_type`, `period_month` or
  `last_updated` column.
- The employment window is applied to each point before the merge.
- The merge keeps the last value read.

## Model

| member | source | states |
|---|---|---|
| Text.NatDecimalRoundTrip | src/menapiai_data_pipeline/ingestion/employment_bls.py:115 | reading the decimal rendering of a natural number (as `strftime` writes the year) gives the number back |
| Text.IntDecimalRoundTrip | src/menapiai_data_pipeline/transforms/employment_bls_to_canonical.py:188 | `int()` of the decimal text of any integer, sign included, gives the integer back |
| Text.ZeroPad2 | src/menapiai_data_pipeline/transforms/employment_bls_to_canonical.py:222 | `{month:02d}` is exactly two digits that read back as the month |
| Calendar.InWindowByMonths | src/menapiai_data_pipeline/transforms/employment_bls_to_canonical.py:206-210 | a month is kept iff its first day lies in [start, end], i.e. iff it lies between the first month whose 1st is not before start and the end's month, both inclusive |
| Calendar.MidMonthStartExcludesItsMonth | src/menapiai_data_pipeline/transforms/employment_bls_to_canonical.py:206-210 | a window starting after the 1st excludes the start's own month |
| Calendar.IsoDateRoundTrip | src/menapiai_data_pipeline/transforms/employment_bls_to_canonical.py:252 | parsing the `YYYY-MM-DD` rendering of a valid date gives the date |
| Calendar.IsoDateRejects | src/menapiai_data_pipeline/transforms/employment_bls_to_canonical.py:206 | date parsing rejects month 13 and February 30 instead of guessing |
| Metros.MetroTableWellFormed | src/menapiai_data_pipeline/constants.py:23-49 | every metro's full code is its 2-digit state FIPS followed by its 5-digit area code, hence 7 digits |
| Metros.MetroTableDistinct | src/menapiai_data_pipeline/constants.py:23-49 | metro names and full codes are pairwise distinct |
| Metros.MetroNames | src/menapiai_data_pipeline/transforms/employment_bls_to_canonical.py:124 | the list of available names is the table's names in table order |
| Metros.LookupIn | src/menapiai_data_pipeline/transforms/employment_bls_to_canonical.py:123-129 | lookup by name fails iff no entry has that name, and otherwise returns the entry of that name |
| Metros.FindNameIn | src/menapiai_data_pipeline/transforms/employment_bls_to_canonical.py:77-82 | the name of the first entry, in table order, whose full code matches; none iff no entry matches |
| Metros.FindMetroNameInvertsLookup | src/menapiai_data_pipeline/transforms/employment_bls_to_canonical.py:77-82 | `_find_metro_name` is a left inverse of name → full code on the configured table |
| Metros.FindMetroNameUnknown | src/menapiai_data_pipeline/transforms/employment_bls_to_canonical.py:79-82 | a code absent from the table gives None |
| Metros.PortlandMetro | src/menapiai_data_pipeline/constants.py:24-28 | Portland's entry is ("41", "38900", "4138900"), its code maps back to its name, and a bare "Portland" is unknown |
| Regions.LookupIn | src/menapiai_data_pipeline/shared/regions.py:23-26 | lookup returns the code stored under exactly that (city, state) pair, and None iff there is none |
| Regions.KnownPairs | src/menapiai_data_pipeline/shared/regions.py:15-19 | ("Portland", "Oregon") maps to "4138900", and similarly for Seattle and Phoenix |
| Regions.NoNormalisation | src/menapiai_data_pipeline/shared/regions.py:23-26 | matching is exact and case-sensitive: abbreviations or other casing give None |
| Regions.RegionTableConsistent | src/menapiai_data_pipeline/shared/regions.py:14-20 | every CBSA code is some configured metro's full code; keys and codes are pairwise distinct |
| Regions.LookupYieldsConfiguredMetro | src/menapiai_data_pipeline/shared/regions.py:23-26 | a code found for a city resolves to a configured metro name |
| LausSeriesId.MeasureOfCode | src/menapiai_data_pipeline/transforms/employment_bls_to_canonical.py:43-48 | the measure of a code has that code; None iff no measure has it |
| LausSeriesId.MeasureCodeRoundTrip | src/menapiai_data_pipeline/transforms/employment_bls_to_canonical.py:43-48 | the code table maps each measure's code back to the measure |
| LausSeriesId.MeasureOrderCodes | src/menapiai_data_pipeline/ingestion/employment_bls.py:33 | four distinct measures, with codes 03, 04, 05, 06 in that order |
| LausSeriesId.BuildSeriesIds | src/menapiai_data_pipeline/ingestion/employment_bls.py:15-34 | four ids of length code+13, each "LAUMT", then the code, then "000000", then the measure code as its last two characters |
| LausSeriesId.ParseSeriesId | src/menapiai_data_pipeline/transforms/employment_bls_to_canonical.py:51-74 | fails iff the id lacks the prefix; otherwise the metro code is characters 5..11 and the measure code the last two characters, each clipped to what exists |
| LausSeriesId.SeriesIdRoundTrip | src/menapiai_data_pipeline/ingestion/employment_bls.py:33-34 | parsing the i-th built id of a 7-character code yields that code and the i-th measure |
| LausSeriesId.ParseBuiltSeriesId | src/menapiai_data_pipeline/transforms/employment_bls_to_canonical.py:62-74 | parse inverts build for every measure of a 7-character code |
| LausSeriesId.ShortCodeDoesNotRoundTrip | src/menapiai_data_pipeline/transforms/employment_bls_to_canonical.py:65-69 | for a 6-character code the fixed-width parse takes a filler zero into the metro code |
| LausSeriesId.BuildSeriesIdInjective | src/menapiai_data_pipeline/ingestion/employment_bls.py:34 | two 7-character codes and measures with the same id are equal |
| LausSeriesId.SeriesIdsFor | src/menapiai_data_pipeline/ingestion/employment_bls.py:51-55 | the series list is four ids per metro, in table order, the 4k+j-th being metro k's j-th measure |
| LausSeriesId.RequestedSeriesIdsParse | src/menapiai_data_pipeline/ingestion/employment_bls.py:51-55 | the request has 4 × 5 = 20 ids, each parsing back to its metro's full code and measure |
| LausSeriesId.SeriesIdsForDistinct | src/menapiai_data_pipeline/ingestion/employment_bls.py:51-54 | distinct 7-character full codes give pairwise distinct ids |
| LausSeriesId.RequestedSeriesIdsDistinct | src/menapiai_data_pipeline/ingestion/employment_bls.py:52-54 | the 20 requested ids are pairwise distinct |
| Slug.Lower | src/menapiai_data_pipeline/transforms/employment_bls_to_canonical.py:281 | lower-casing leaves no ASCII capital, keeps text already in `[a-z0-9_]`, and on text without U+0130 or U+212A keeps the length and lowers each ASCII capital in place, every other character unchanged |
| Slug.Replace | src/menapiai_data_pipeline/transforms/employment_bls_to_canonical.py:282-283 | replacement changes exactly the occurrences of one character, position by position |
| Slug.Filter | src/menapiai_data_pipeline/transforms/employment_bls_to_canonical.py:284 | the regex deletion keeps exactly the allowed characters of the input, never adds one, and keeps text that is all allowed |
| Slug.Strip | src/menapiai_data_pipeline/transforms/employment_bls_to_canonical.py:286 | `strip("_")` returns a contiguous piece of its input, everything cut on either side being an underscore, with no underscore at either end |
| Slug.Slugify | src/menapiai_data_pipeline/transforms/employment_bls_to_canonical.py:280-286 | the slug contains only `[a-z0-9_]` and has no leading or trailing underscore |
| Slug.SlugifyKeepsSlugs | src/menapiai_data_pipeline/transforms/employment_bls_to_canonical.py:280-286 | a text that is already a slug is its own slug |
| Slug.SlugifyIdempotent | src/menapiai_data_pipeline/transforms/employment_bls_to_canonical.py:280-286 | slugifying twice gives the same as once |
| Slug.CleanAppend | src/menapiai_data_pipeline/transforms/employment_bls_to_canonical.py:281-285 | every step before the strip works character by character, so it distributes over concatenation |
| Slug.PortlandSlug | src/menapiai_data_pipeline/transforms/employment_bls_to_canonical.py:293 | "Portland-Vancouver-Hillsboro, OR-WA" slugs to "portland_vancouver_hillsboro_or_wa" |
| Slug.SlashIsDeleted | src/menapiai_data_pipeline/transforms/employment_bls_to_canonical.py:284 | "Condo/Co-op" slugs to "condoco_op": the slash is deleted, not replaced |
| Slug.RunsNotCollapsed | src/menapiai_data_pipeline/transforms/employment_bls_to_canonical.py:285 | each space becomes its own underscore: "a  b" slugs to "a__b" |
| EmploymentPivot.Put | src/menapiai_data_pipeline/transforms/employment_bls_to_canonical.py:226-227 | setting a measure's value sets that column and leaves the other three unchanged |
| EmploymentPivot.Find | src/menapiai_data_pipeline/transforms/employment_bls_to_canonical.py:213-216 | the search finds a record of the month iff one exists, and returns a record of that month |
| EmploymentPivot.Upsert | src/menapiai_data_pipeline/transforms/employment_bls_to_canonical.py:212-227 | find-or-append keeps one record per month, updates only the point's month and column, and grows the list only for a new month |
| EmploymentPivot.Pivot | src/menapiai_data_pipeline/transforms/employment_bls_to_canonical.py:160-227 | the merged records have pairwise distinct (year, month) keys, are no more than the retained points, and are empty exactly when no point was retained |
| EmploymentPivot.LastValue | src/menapiai_data_pipeline/transforms/employment_bls_to_canonical.py:226-227 | the reference merge value of a month and measure is the value of some retained point of that month and measure |
| EmploymentPivot.PivotKeys | src/menapiai_data_pipeline/transforms/employment_bls_to_canonical.py:212-224 | there is a record for a month iff some retained point has that month |
| EmploymentPivot.PivotMatchesReference | src/menapiai_data_pipeline/transforms/employment_bls_to_canonical.py:212-227 | each record's column equals the value of the last retained point of that month and measure (last write wins), and is null when there is none |
| EmploymentPivot.Insert | src/menapiai_data_pipeline/transforms/employment_bls_to_canonical.py:273 | inserting a record of a new month into an ascending list keeps it strictly ascending and adds exactly that record |
| EmploymentPivot.SortRows | src/menapiai_data_pipeline/transforms/employment_bls_to_canonical.py:273 | the sorted records are strictly ascending by (year, month), with the same records |
| EmploymentPivot.SortedRowsDetermined | src/menapiai_data_pipeline/transforms/employment_bls_to_canonical.py:273 | two strictly ascending record lists holding the same records are equal, so the sorted output is unique |
| EmploymentTransform.ParsePoint | src/menapiai_data_pipeline/transforms/employment_bls_to_canonical.py:187-210 | a point yields an observation of the series' measure only if year and month parse, the period passes the guard, the value parsed, the month is a valid date and its first lies in the window; skipped periods yield nothing; the only fatal errors are a bad year, month or date; the converse is EmploymentProperties.ReadablePointOutcome |
| EmploymentTransform.PointsObs | src/menapiai_data_pipeline/transforms/employment_bls_to_canonical.py:187-210 | a series' observations are no more than its points, all of its measure and inside the window |
| EmploymentTransform.SeriesMeasure | src/menapiai_data_pipeline/transforms/employment_bls_to_canonical.py:163-184 | a series is read only if it has an id and data, the id parses, names the requested metro, and its measure code is known |
| EmploymentTransform.SeriesObs | src/menapiai_data_pipeline/transforms/employment_bls_to_canonical.py:162-227 | every retained observation is a valid timestamp month inside the window |
| EmploymentTransform.PivotMonthsValid | src/menapiai_data_pipeline/transforms/employment_bls_to_canonical.py:250-252 | every merged record's month is one the timestamp conversion accepts |
| EmploymentTransform.Retained | src/menapiai_data_pipeline/transforms/employment_bls_to_canonical.py:118-210 | observations are produced only when the file exists, the metro is known, both dates parse, start ≤ end, the status is REQUEST_SUCCEEDED and the series list is non-empty; all lie in the window |
| EmploymentTransform.Assemble | src/menapiai_data_pipeline/transforms/employment_bls_to_canonical.py:229-273 | the run ends in "no data" exactly when nothing was retained; otherwise there are between one and as many records as retained points, each with the metro code, the metro name, type "metro", source "BLS LAUS", the run timestamp and a month the timestamp conversion accepts |
| EmploymentTransform.TransformWith | src/menapiai_data_pipeline/transforms/employment_bls_to_canonical.py:118-273 | a run succeeds only when the file exists, the metro is known, both dates parse, start ≤ end and the status is REQUEST_SUCCEEDED, and then yields a non-empty table stamped with the metro and the run; it ends in "no data" exactly when every check passes and no point is retained |
| EmploymentTransform.PointRulesAgreeOnSuccess | src/menapiai_data_pipeline/transforms/employment_bls_to_canonical.py:191-206 | a point the code as written reads without error is read the same way with annual averages skipped |
| EmploymentTransform.PointsRulesAgreeOnSuccess | src/menapiai_data_pipeline/transforms/employment_bls_to_canonical.py:187-210 | a series whose points the code as written reads without error is read the same way with annual averages skipped |
| EmploymentTransform.SeriesRulesAgreeOnSuccess | src/menapiai_data_pipeline/transforms/employment_bls_to_canonical.py:162-227 | a series list the code as written reads without error is read the same way with annual averages skipped |
| EmploymentTransform.RetainedRulesAgreeOnSuccess | src/menapiai_data_pipeline/transforms/employment_bls_to_canonical.py:118-227 | when the checks and the reading succeed as written, skipping annual averages retains the same observations |
| EmploymentTransform.Transform | src/menapiai_data_pipeline/transforms/employment_bls_to_canonical.py:191-193 | skipping annual averages keeps every run the code as written completes, with the same table |
| EmploymentTransform.TransformAsWritten | src/menapiai_data_pipeline/transforms/employment_bls_to_canonical.py:205-206 | a run the code as written completes has a non-empty table whose every month is between 1 and 12, since the date conversion raises on any other |
| EmploymentProperties.PointsObsMembers | src/menapiai_data_pipeline/transforms/employment_bls_to_canonical.py:187-210 | an observation is retained from a series' points iff some point of it yields that observation |
| EmploymentProperties.ContributionMembers | src/menapiai_data_pipeline/transforms/employment_bls_to_canonical.py:162-210 | a series contributes an observation iff the series is read for that measure and one of its points yields it |
| EmploymentProperties.SeriesObsMembers | src/menapiai_data_pipeline/transforms/employment_bls_to_canonical.py:162-210 | an observation is retained from the series list iff some point of some read series yields it |
| EmploymentProperties.RetainedIsSeriesObs | src/menapiai_data_pipeline/transforms/employment_bls_to_canonical.py:118-162 | once the file, metro, date, window, status and series-list checks pass, the run's outcome is reading the series list for the metro's code and the window, whether that succeeds or fails |
| EmploymentProperties.RetainedExactly | src/menapiai_data_pipeline/transforms/employment_bls_to_canonical.py:162-210 | past the early checks a run fails exactly when some point of a read series is fatal, with such a point's error; otherwise it retains exactly the observations some point of a read series yields |
| EmploymentProperties.FailedRequestReported | src/menapiai_data_pipeline/transforms/employment_bls_to_canonical.py:146-148 | a non-success status fails with the first message, with "Unknown error" when there is no message, and with an index error for an empty message list |
| EmploymentProperties.ReadablePointOutcome | src/menapiai_data_pipeline/transforms/employment_bls_to_canonical.py:187-210 | a point whose year and month read and whose period passes the guard is skipped, never fatal, without a value; is an invalid date when its month is outside the timestamp range; and otherwise is kept exactly when the first of its month lies in [start, end], and skipped when not |
| EmploymentProperties.UnreadablePointFails | src/menapiai_data_pipeline/transforms/employment_bls_to_canonical.py:188-196 | an unreadable year is fatal before anything else, and an unreadable month of a period that passes the guard is fatal |
| EmploymentProperties.PointsObsFails | src/menapiai_data_pipeline/transforms/employment_bls_to_canonical.py:187-210 | reading a series' points fails exactly when one point is fatal, and with the error of the first fatal point |
| EmploymentProperties.ContributionFails | src/menapiai_data_pipeline/transforms/employment_bls_to_canonical.py:162-210 | a series fails the run exactly when it is read and one of its points is fatal |
| EmploymentProperties.SeriesObsFails | src/menapiai_data_pipeline/transforms/employment_bls_to_canonical.py:162-210 | reading the series list fails exactly when some point of a read series is fatal, and with such a point's error; skipped series never fail |
| EmploymentProperties.ValidationOrder | src/menapiai_data_pipeline/transforms/employment_bls_to_canonical.py:118-233 | the checks run in the code's order, and each check's error (missing file, unknown metro with the configured names, unparsed dates, reversed window, failed request with its message, empty series list) is the run's result once the earlier checks pass, whatever the later inputs; past them the run fails with the reading's error, or with no-data exactly when nothing was merged |
| EmploymentProperties.PeriodMonthParses | src/menapiai_data_pipeline/transforms/employment_bls_to_canonical.py:250-252 | `period` is year, "-", two-digit month, and `period + "-01"` parses to the first of that month |
| EmploymentProperties.AssembleWellFormed | src/menapiai_data_pipeline/transforms/employment_bls_to_canonical.py:229-273 | the output is non-empty, strictly ascending by (year, month), one record per observed month, with region id, name, type "metro", source "BLS LAUS", timestamp, period text and period month set |
| EmploymentProperties.AssembleMatchesObservations | src/menapiai_data_pipeline/transforms/employment_bls_to_canonical.py:212-248 | there is a record for a month iff a retained point has it, and each column is that month's last value for the measure (null if none) |
| EmploymentProperties.OutputWellFormed | src/menapiai_data_pipeline/transforms/employment_bls_to_canonical.py:99-273 | a successful run returns a non-empty, strictly ascending list of records inside the window, whose region id is the metro's full code and maps back to the requested name |
| EmploymentProperties.SeriesObsAppend | src/menapiai_data_pipeline/transforms/employment_bls_to_canonical.py:162 | reading two series lists one after the other is reading their concatenation: the first error wins, otherwise observations concatenate |
| EmploymentProperties.SkippedSeriesInsert | src/menapiai_data_pipeline/transforms/employment_bls_to_canonical.py:166-184 | inserting a skipped series anywhere leaves the retained observations unchanged |
| EmploymentProperties.SkippedSeriesIrrelevant | src/menapiai_data_pipeline/transforms/employment_bls_to_canonical.py:166-184 | a series for another metro, with no id, no data, a bad prefix or an unknown measure never changes the outcome of a run |
| EmploymentProperties.RerunDiffersOnlyInTimestamp | src/menapiai_data_pipeline/transforms/employment_bls_to_canonical.py:243 | two runs on the same input differ only in `last_updated` |
| EmploymentProperties.PartitionOf | src/menapiai_data_pipeline/transforms/employment_bls_to_canonical.py:293 | the region partition value is always a valid slug |
| EmploymentProperties.PartitionsOfRun | src/menapiai_data_pipeline/transforms/employment_bls_to_canonical.py:288-303 | all records of a run share one region partition, the slug of the metro name, and their year partitions are non-decreasing |
| EmploymentProperties.PortlandPartition | src/menapiai_data_pipeline/transforms/employment_bls_to_canonical.py:293 | Portland's records go to partition "portland_vancouver_hillsboro_or_wa" and their own year |
| EmploymentTransform.ThirteenParses | src/menapiai_data_pipeline/transforms/employment_bls_to_canonical.py:94-96 | the annual-average period "M13" parses to month 13 |
| AnnualAverage.AnnualAveragePointFatalAsWritten | src/menapiai_data_pipeline/transforms/employment_bls_to_canonical.py:191-206 | as written, an "M13" point with a value aborts with an invalid date, whatever the window |
| AnnualAverage.AnnualAveragePointSkipped | src/menapiai_data_pipeline/transforms/employment_bls_to_canonical.py:191-193 | with annual averages skipped, an "M13" point yields nothing |
| AnnualAverage.BuiltSeriesIsRead | src/menapiai_data_pipeline/transforms/employment_bls_to_canonical.py:169-184 | a series built for the requested metro with data is read with its measure |
| AnnualAverage.SingleAnnualAverageSeries | src/menapiai_data_pipeline/transforms/employment_bls_to_canonical.py:187-206 | a series holding one "M13" point fails as written and contributes nothing when annual averages are skipped |
| AnnualAverage.AnnualAverageAbortsRun | src/menapiai_data_pipeline/transforms/employment_bls_to_canonical.py:191-206 | a valid response with one annual-average point aborts the run as written, and ends in "no data" when annual averages are skipped |
| AnnualAverage.PointsRulesAgree | src/menapiai_data_pipeline/transforms/employment_bls_to_canonical.py:191-195 | without "M13" points both period rules read a series' points the same way |
| AnnualAverage.SeriesRulesAgree | src/menapiai_data_pipeline/transforms/employment_bls_to_canonical.py:191-195 | without "M13" points both period rules read a series list the same way |
| AnnualAverage.RulesAgreeWithoutAnnualAverages | src/menapiai_data_pipeline/transforms/employment_bls_to_canonical.py:191-195 | on responses without annual averages the corrected transform equals the transform as written |
| EmploymentOrder.LastValueComplete | src/menapiai_data_pipeline/transforms/employment_bls_to_canonical.py:226-227 | a month and measure that some retained point has always gets a value |
| EmploymentOrder.LastValueByMultiset | src/menapiai_data_pipeline/transforms/employment_bls_to_canonical.py:212-227 | without two points of one month and measure, the merged value does not depend on the order of the points |
| EmploymentOrder.SortedPivotByMultiset | src/menapiai_data_pipeline/transforms/employment_bls_to_canonical.py:212-273 | two orderings of the same key-unique observations give the same sorted records |
| EmploymentOrder.SeriesObsPermutation | src/menapiai_data_pipeline/transforms/employment_bls_to_canonical.py:162-227 | a permuted series list reads without error when the original does, and retains the same observations |
| EmploymentOrder.SeriesOrderIrrelevant | src/menapiai_data_pipeline/transforms/employment_bls_to_canonical.py:162-273 | when no month and measure repeat among the retained points, the output does not depend on the order of the series |
| EmploymentOrder.RepeatedKeyOrderMatters | src/menapiai_data_pipeline/transforms/employment_bls_to_canonical.py:226-227 | two points of one month and measure merge to whichever is read last, so then order matters |
| Ingestion.Ymd | src/menapiai_data_pipeline/ingestion/employment_bls.py:115 | the date stamp is at least five ASCII digits |
| Ingestion.Decide | src/menapiai_data_pipeline/ingestion/employment_bls.py:106-131 | reuse and download both use today's cache path |
| Ingestion.Store | src/menapiai_data_pipeline/ingestion/employment_bls.py:77-83 | writing touches only the cache file, and a success leaves it on disk stamped with the call's time |
| Ingestion.IngestWith | src/menapiai_data_pipeline/ingestion/employment_bls.py:88-131 | a call changes no file but today's cache file; a non-empty local path is returned as given with the disk untouched; any other success returns today's cache path, and that file is then on disk |
| Ingestion.IngestAsWritten | src/menapiai_data_pipeline/ingestion/employment_bls.py:77-83 | as written, a failing call that changes the disk is a BLS call whose body is not JSON, and it leaves today's cache file empty and stamped with the call's time |
| Ingestion.Ingest | src/menapiai_data_pipeline/ingestion/housing_redfin.py:14-24 | with the body checked before the file is opened, as the Redfin downloader does, a failing call leaves the disk exactly as it was |
| Ingestion.BlsRequestFor | src/menapiai_data_pipeline/ingestion/employment_bls.py:50-69 | the payload's years read back as 2000 and the current year, it asks for catalog data without calculations or annual averages, and it carries the API key exactly when a non-empty one is configured |
| IngestionProperties.DecideCases | src/menapiai_data_pipeline/ingestion/employment_bls.py:106-131 | local iff a non-empty local path is given, and then that path; reuse iff the file exists, no refresh is forced and age < 24 h; download in every other case |
| IngestionProperties.TtlBoundary | src/menapiai_data_pipeline/ingestion/employment_bls.py:119-121 | a file exactly 24 hours old is downloaded again; one a microsecond younger is reused |
| IngestionProperties.ForceRefreshDownloads | src/menapiai_data_pipeline/ingestion/housing_redfin.py:44-59 | without a local path, a forced refresh always downloads; a local path wins regardless |
| IngestionProperties.ReturnedPathIsCachePath | src/menapiai_data_pipeline/ingestion/housing_redfin.py:48-62 | both the reuse and the download branch return raw_dir + "/" + prefix + YYYYMMDD + extension |
| IngestionProperties.YmdRoundTrip | src/menapiai_data_pipeline/ingestion/employment_bls.py:115 | the YYYYMMDD stamp reads back as the date |
| IngestionProperties.CacheFileNameInjective | src/menapiai_data_pipeline/ingestion/housing_redfin.py:48-49 | different sources or different days never share a cache file name |
| IngestionProperties.NoDownloadNoChange | src/menapiai_data_pipeline/ingestion/housing_redfin.py:44-55 | a local or reused file changes nothing on disk and does not depend on the network |
| IngestionProperties.OnlyCacheFileChanges | src/menapiai_data_pipeline/ingestion/housing_redfin.py:14-24 | a call changes no file other than today's cache file |
| IngestionProperties.FailedFetchWritesNothing | src/menapiai_data_pipeline/ingestion/employment_bls.py:77-83 | an unreachable server or a 4xx/5xx status leaves the disk unchanged and is reported as such |
| IngestionProperties.DownloadStores | src/menapiai_data_pipeline/ingestion/housing_redfin.py:19-23 | a successful download stores the body (for BLS the re-rendered JSON) in today's cache file, stamped now, and returns its path |
| IngestionProperties.SecondRunReuses | src/menapiai_data_pipeline/ingestion/employment_bls.py:118-123 | after a successful call, a call within 24 h of the file's stamp returns the same path, changes nothing and makes no request |
| IngestionProperties.TruncatedCacheReusedAsWritten | src/menapiai_data_pipeline/ingestion/employment_bls.py:80-83 | as written, a non-JSON 2xx body leaves an empty cache file that the next call within 24 h reuses |
| IngestionProperties.UndecodableBodyRetried | src/menapiai_data_pipeline/ingestion/employment_bls.py:80-83 | decoding before opening, a non-JSON body leaves the disk untouched, so the next call downloads again |
| IngestionProperties.BlsRequestContents | src/menapiai_data_pipeline/ingestion/employment_bls.py:50-69 | the payload holds the 20 distinct configured ids in table order, spans 2000 to the current year, asks for catalog data without calculations or annual averages, and carries the key iff a non-empty one is set |
| HousingTransform.RegionId | src/menapiai_data_pipeline/transforms/housing_redfin_to_canonical.py:26 | the region id is present iff city and state are, and then it has length city + 1 + state |
| HousingTransform.ParsePeriodBegin | src/menapiai_data_pipeline/transforms/housing_redfin_to_canonical.py:27 | a missing cell gives a missing date; a read date is a valid date within the timestamp range; a failure names the offending text |
| HousingTransform.MapRow | src/menapiai_data_pipeline/transforms/housing_redfin_to_canonical.py:25-32 | a row fails to convert iff its period cannot be read |
| HousingTransform.MapRows | src/menapiai_data_pipeline/transforms/housing_redfin_to_canonical.py:25-32 | a successful conversion has one record per row |
| HousingTransform.MapRowsPointwise | src/menapiai_data_pipeline/transforms/housing_redfin_to_canonical.py:21-32 | record i is row i's conversion; the table fails iff some row's period is unreadable, with such a row's error |
| HousingTransform.TransformHousing | src/menapiai_data_pipeline/transforms/housing_redfin_to_canonical.py:16-19 | a missing raw file fails with "not found"; otherwise one record per row |
| HousingProperties.HousingRowByRow | src/menapiai_data_pipeline/transforms/housing_redfin_to_canonical.py:16-32 | one record per row in order; region id is city + "_" + state when both are present; the period is the date the cell names; the four metrics are copied unchanged; failure iff the file is missing or some period is unreadable |
| HousingProperties.HousingRowsConcatenate | src/menapiai_data_pipeline/transforms/housing_redfin_to_canonical.py:25-32 | no row influences another: the table of a concatenation is the concatenation of the tables |
| HousingProperties.PeriodBeginRoundTrip | src/menapiai_data_pipeline/transforms/housing_redfin_to_canonical.py:27 | an ISO date in the timestamp range reads back as itself |
| HousingProperties.PeriodBeforeTimestampRangeRejected | src/menapiai_data_pipeline/transforms/housing_redfin_to_canonical.py:27 | a date before the timestamp range aborts the conversion |
| HousingProperties.RegionIdSplits | src/menapiai_data_pipeline/transforms/housing_redfin_to_canonical.py:26 | for a city without an underscore, splitting the region id at its first underscore gives back city and state |
| HousingProperties.RegionIdInjective | src/menapiai_data_pipeline/transforms/housing_redfin_to_canonical.py:26 | cities without underscores never share a region id unless city and state both agree |
| HousingProperties.RegionIdCollision | src/menapiai_data_pipeline/transforms/housing_redfin_to_canonical.py:26 | with underscores in city names, ("A_B", "C") and ("A", "B_C") share region id "A_B_C" |

## Left out

- I/O is not modelled. This covers HTTP requests, JSON and TSV decoding, `mkdir`, Parquet writing with directory partitioning, and logging. The network's answer, the file system (a map from path to content and modification time), the clock (`now`, today's date, the current year) and `settings` (raw directory, API key) are parameters.
- Employment value parsing (`float(value.replace(",", ""))`) is not modelled. A value is `Some(real)` when it parsed and `None` when it did not.
- Start and end dates arrive already parsed, as calendar dates. `None` stands for text on which `pd.to_datetime` raises.
- EmploymentTransform.Retained: a start or end text that pandas reads as NaT ("" or "NaT") is not modelled. In the code such a bound passes the `start > end` check and filters nothing, so the run proceeds without that bound; the model has no "no bound" value and cannot express it. A bound with a time of day ("2020-01-01 12:00", or "now") is not modelled either: the model's bounds are whole days.
- EmploymentTransform.ParsePoint: years and months are read as an optional "-" followed by ASCII digits. Python's `int()` also accepts "+", surrounding whitespace, underscores between digits and non-ASCII digits. The model rejects all of these as an invalid year or period.
- A point lacking its "year", "period" or "value" key, and a series or response that is not a JSON object, raise `KeyError`/`AttributeError` in the code. The model's points and responses always carry those fields.
- The DataFrame's column order and dtypes are not modelled. This includes `astype("string")`, NaN versus None in missing measure columns, and the full-timestamp `isoformat()` text. The records are a datatype, and `last_updated` is an opaque string parameter.
- EmploymentTransform.ParsePoint: a point whose year is below 100 is treated as an invalid date and aborts the run. The code builds the date text without padding the year ("99-01-01", "5-01-01"), which pandas' ISO reader rejects and its fallback date reading takes as a two-digit or reordered date (1999-01-01, 2001-05-01); that fallback is not modelled, so where the code may keep or window-filter such a point the model fails.
- Pandas timestamp bounds are modelled at day granularity: 1677-09-22 to 2262-04-11 are accepted. The intra-day limits of those two end days are not modelled.
- HousingTransform.ParsePeriodBegin: only `YYYY-MM-DD` text is read. `pd.to_datetime` also accepts many other layouts, and infers one format for the whole column. The model treats every other text as unreadable.
- A missing raw housing column (`KeyError`), and non-text CITY or STATE values, are not modelled.
- The ingestion model stamps a written file with the call's `now`. The real modification time is slightly later, which can only make the file look younger.
- `Path(...)` normalisation is not modelled. A local path is returned verbatim, and the cache path is directory + "/" + name.
- `strftime("%Y")` is modelled as the unpadded decimal year. This matches the four-digit form for years from 1000.
- A write interrupted mid-way (disk full, a failure inside `json.dump`) is not modelled.
- The `slugify` lower-casing handles ASCII capitals plus U+0130 and U+212A, the two characters whose Python lower case contains an ASCII letter. Other characters are kept and then removed by the filter, as Python would treat them.
- The command line, the placeholder ingestion and transform stubs, the plotting and runner scripts, and `config.py` are not part of this model.

## Findings

| source | as written | input that shows it | evidently intended | confidence | as-written member | corrected member |
|---|---|---|---|---|---|---|
| src/menapiai_data_pipeline/transforms/employment_bls_to_canonical.py:191-206 | the "skip annual averages" guard drops only periods not starting with "M"; BLS annual averages use period "M13", which passes, parses to month 13, and makes the date conversion of "YYYY-13-01" raise, aborting the whole run whatever the window | a response for the requested metro containing a point with year "2020", period "M13" and value "4.5" | annual-average points are skipped like other non-monthly points | medium, not executed (the download asks for `annualaverage: False`, so such points only arrive in files obtained otherwise) | AnnualAverage.AnnualAveragePointFatalAsWritten | AnnualAverage.AnnualAveragePointSkipped |
| src/menapiai_data_pipeline/ingestion/employment_bls.py:80-83 | the cache file is opened for writing, and so truncated, before `response.json()` decodes the body; a 2xx answer whose body is not JSON raises after leaving an empty file stamped now | a first call answered with status 200 and body "<html>" fails; a second call within 24 hours, without `force_refresh`, returns the path of the empty file | decode the body before opening the file, so a failed decode leaves no artifact and the next call downloads again | medium, not executed | IngestionProperties.TruncatedCacheReusedAsWritten | IngestionProperties.UndecodableBodyRetried |
