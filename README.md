# Sleep-noise analysis, modelled in Dafny

This project models the analysis core of a small sleep-experiment toolkit. A phone
decibel meter records one night of sound levels. The toolkit turns the meter's export
into a time-ordered list of readings and annotates every sample:

- a centred moving average;
- a noise flag at a decibel threshold;
- a heuristic REM flag.

From the annotated night it computes a statistics record:

- noise ratio;
- noise streaks;
- first-hour noise ratio;
- sleep-stage bands;
- hourly quality.

A registry of named experimental conditions compares several nights and evaluates two
fixed hypotheses. The Streamlit app turns the numbers into verdicts: the noise
interpretation, the overall grade, the best and worst hour, the shaded REM spans and
the report line.

Modules, one file each:

| file | module | models |
|---|---|---|
| `common.dfy` | `Common` | Option (None for Python's None and pandas' NaN), sums, means, min/max, counts, percentages, ceiling |
| `preprocessing.dfy` | `Preprocessing` | `preprocess_data`: the rolling mean, `is_noise`, `is_rem` |
| `streaks.dfy` | `Streaks` | the streak loop of `calculate_statistics` and the streak durations |
| `statistics.dfy` | `Statistics` | the rest of `calculate_statistics`: bands, first hour, hourly loop, the record |
| `analyzer.dfy` | `Analyzer` | class `SleepAnalyzer`: interval inference, the three state-changing steps |
| `hypothesis.dfy` | `Hypothesis` | class `HypothesisTest`: the condition registry, comparison, hypotheses 1 and 2 |
| `dbmeter.dfy` | `DbMeter` | `convert_dbmeter_data`: line parsing, the Korean AM/PM timestamp, the sort |
| `app_rules.dfy` | `AppRules` | the decision rules of the Streamlit app |

State and arithmetic:

- **Objects.** `SleepAnalyzer` and `HypothesisTest` update their fields in place, so
  they are classes whose methods state the whole new state.
- **Dictionaries.** A Python dictionary that keeps insertion order becomes a map plus a
  `seq` of keys.
- **Loops.** The source's loops are methods with loop invariants, each proved against a
  specification function. These are the streak loop, the hourly loop, the registry
  passes of the hypotheses, the REM-span loop and the conversion loop.
- **Numbers.** Decibel values are unbounded reals, so there is no floating-point
  rounding. A pandas standard deviation is carried as its square, the sample variance
  with ddof = 1. A lemma shows that the strict bounds `1.5 < std < 4` are the same as
  `2.25 < variance < 16`.

## Model

| member | source | states |
|---|---|---|
| Common.Max | sleep_analysis/sleep_analyzer.py:161 | the maximum of a non-empty column is at least every sample and is one of them |
| Common.Min | sleep_analysis/sleep_analyzer.py:162 | the minimum of a non-empty column is at most every sample and is one of them |
| Common.CountTrue | sleep_analysis/sleep_analyzer.py:133 | a boolean column's sum never exceeds its length |
| Common.Percent | sleep_analysis/sleep_analyzer.py:136 | a count out of n as a percentage lies in [0, 100]; it is 0 exactly for a zero count and 100 exactly for a full count |
| Common.Ceil | sleep_analysis/sleep_analyzer.py:199 | `int(np.ceil(x))` is the least integer not below x |
| Common.MeanBounds | sleep_analysis/sleep_analyzer.py:160 | a mean of values in [lo, hi] lies in [lo, hi] |
| Common.MeanBetweenMinAndMax | sleep_analysis/sleep_analyzer.py:160-162 | the mean dB lies between the minimum and the maximum dB |
| Common.CountTrueZeroIff | sleep_analysis/sleep_analyzer.py:133 | a flag count is 0 exactly when no flag is set |
| Common.CountTrueFullIff | sleep_analysis/sleep_analyzer.py:133 | a flag count equals the length exactly when every flag is set |
| Preprocessing.Window | sleep_analysis/sleep_analyzer.py:103-107 | pandas' centred window, clipped at both ends, holds at most w samples |
| Preprocessing.WindowHoldsSample | sleep_analysis/sleep_analyzer.py:103-107 | a sample's window contains the sample, so with `min_periods=1` it is never empty |
| Preprocessing.Smooth | sleep_analysis/sleep_analyzer.py:103-107 | `dB_smoothed` has one entry per sample, each the mean of that sample's window |
| Preprocessing.SmoothWithinWindow | sleep_analysis/sleep_analyzer.py:103-107 | each smoothed value lies between the quietest and the loudest sample of its window |
| Preprocessing.SmoothWindowOneIsIdentity | sleep_analysis/sleep_analyzer.py:103-107 | smoothing with a window of one sample returns the column unchanged |
| Preprocessing.NoiseFlags | sleep_analysis/sleep_analyzer.py:110 | `is_noise[i]` holds exactly when sample i reaches the threshold |
| Preprocessing.NoiseCountAntitone | sleep_analysis/sleep_analyzer.py:110 | raising the threshold never increases the number of noise samples |
| Preprocessing.StdBoundsAsVariance | sleep_analysis/sleep_analyzer.py:114-116 | for a non-negative deviation, 1.5 < std < 4 holds exactly when 2.25 < variance < 16 |
| Preprocessing.RemFlags | sleep_analysis/sleep_analyzer.py:114-116 | `is_rem[i]` holds exactly when sample i is below the night's mean and its 60-sample window's deviation lies strictly between 1.5 and 4 |
| Preprocessing.RemNotEverywhere | sleep_analysis/sleep_analyzer.py:115-116 | the loudest sample is never below the mean, so some sample is not REM |
| Streaks.NoiseStreaks | sleep_analysis/sleep_analyzer.py:139-151 | the streak loop returns exactly the run lengths defined by `NoiseRuns` |
| Streaks.MaxNat | sleep_analysis/sleep_analyzer.py:165 | `max` of a non-empty list bounds every entry and is one of them |
| Streaks.NoiseRunsFacts | sleep_analysis/sleep_analyzer.py:139-151 | every streak has at least one sample; the streaks sum to the number of noise samples; there are at most (n + 1) / 2 of them |
| Streaks.NoiseRunsAllQuiet | sleep_analysis/sleep_analyzer.py:139-151 | a night without noise has no streak |
| Streaks.NoiseRunsAllNoise | sleep_analysis/sleep_analyzer.py:139-151 | an unbroken block of noise is a single streak of its full length |
| Streaks.NoiseRunsSplitAtQuiet | sleep_analysis/sleep_analyzer.py:142-148 | a quiet sample separates streaks: the streaks of a + [quiet] + b are those of a followed by those of b |
| Streaks.NoiseRunsExample | sleep_analysis/sleep_analyzer.py:139-151 | the night F,T,T,F,T,F,F,T,T,T has the streaks 2, 1, 3 |
| Streaks.StreakSecondsExample | sleep_analysis/sleep_analyzer.py:164-165 | that night at a five-second interval has a longest streak of 15 s and an average of 10 s |
| Streaks.StreakSecondsFacts | sleep_analysis/sleep_analyzer.py:164-165 | average and longest streak durations are 0 exactly on a noise-free night, and otherwise 0 < average <= longest |
| Streaks.RunSecondsFacts | sleep_analysis/sleep_analyzer.py:164-165 | for positive streak lengths the average duration is positive and at most the longest |
| Statistics.BandOf | sleep_analysis/sleep_analyzer.py:186-189 | each of the four band conditions holds exactly for its own decibel range (boundaries 30, 35, 40 included upward) |
| Statistics.CountBand | sleep_analysis/sleep_analyzer.py:186-189 | a band count never exceeds the number of samples |
| Statistics.BandCountsPartition | sleep_analysis/sleep_analyzer.py:186-189 | the four band counts add up to the number of samples |
| Statistics.NoiseAtDefaultThresholdIsDisturbed | sleep_analysis/sleep_analyzer.py:186-189 | at the default 40 dB threshold the noise count equals the disturbed count |
| Statistics.FirstHourCount | sleep_analysis/sleep_analyzer.py:174-175 | the first-hour record count is clamped to the number of records |
| Statistics.FirstHourCountZeroIff | sleep_analysis/sleep_analyzer.py:174-175 | on a non-empty night the first-hour count is 0 exactly when the interval exceeds one hour |
| Statistics.FirstHourNoiseRatio | sleep_analysis/sleep_analyzer.py:174-177 | the first-hour ratio is NaN (None) exactly when the interval exceeds an hour; otherwise it is a percentage, 0 exactly when no first-hour sample is noise |
| Statistics.HourData | sleep_analysis/sleep_analyzer.py:200-202 | an hour holds no more samples than the night |
| Statistics.HourDataSelects | sleep_analysis/sleep_analyzer.py:200-202 | an hour's samples are a sub-multiset of the night's samples |
| Statistics.Bucket | sleep_analysis/sleep_analyzer.py:203-208 | an occupied hour's entry carries that hour's index; `BucketShares` bounds its shares |
| Statistics.Buckets | sleep_analysis/sleep_analyzer.py:198-208 | one entry per listed hour |
| Statistics.OccupiedHoursFacts | sleep_analysis/sleep_analyzer.py:199-201 | exactly the occupied visited hours are listed, in strictly increasing order |
| Statistics.HourlyQuality | sleep_analysis/sleep_analyzer.py:197-209 | the hourly loop builds exactly the list `Hourly` |
| Statistics.BucketShares | sleep_analysis/sleep_analyzer.py:205-207 | an hour's deep and restless shares are percentages whose sum is at most 100 |
| Statistics.HourlyFacts | sleep_analysis/sleep_analyzer.py:197-209 | the hourly list has strictly increasing hours; every entry is its hour's bucket, with shares in [0, 100]; every occupied visited hour has an entry |
| Statistics.SingleRecordHasNoHourly | sleep_analysis/sleep_analyzer.py:197-199 | a one-record night gets an empty hourly list, since `ceil(0) = 0` hours are visited |
| Statistics.LastRecordOnWholeHourLeftOut | sleep_analysis/sleep_analyzer.py:197-200 | a last record landing exactly on a whole hour belongs to no visited hour |
| Statistics.RatioFacts | sleep_analysis/sleep_analyzer.py:132-136 | noise ratio = noise count / total × 100; noise and REM ratios lie in [0, 100]; the noise ratio is 0 exactly without noise and 100 exactly when all is noise |
| Statistics.BandSharesSumTo100 | sleep_analysis/sleep_analyzer.py:186-194 | the four band percentages of a non-empty night sum to 100 |
| Statistics.BandPercentsSumTo100 | sleep_analysis/sleep_analyzer.py:191-194 | the four stored band percentages sum to 100 |
| Analyzer.InferInterval | sleep_analysis/sleep_analyzer.py:63-75 | the interval is the gap between the first two timestamps when there are at least two, both parse and the gap is positive; otherwise it is 1 second; it is always positive |
| Analyzer.InferIntervalExamples | sleep_analysis/sleep_analyzer.py:63-75 | a minute gap gives 60 s; a negative gap, an unparsed second time, a single record or no time column give 1 s |
| Analyzer.Annotate | sleep_analysis/sleep_analyzer.py:103-116 | the three added columns have one entry per sample |
| Analyzer.SleepAnalyzer.constructor | sleep_analysis/sleep_analyzer.py:20-32 | a new analyzer keeps the threshold, has no data and empty statistics, and a one-second interval |
| Analyzer.SleepAnalyzer.LoadData | sleep_analysis/sleep_analyzer.py:63-77 | the new frame replaces the old one, without annotations; the interval is the inferred one; the threshold and statistics are untouched |
| Analyzer.SleepAnalyzer.PreprocessData | sleep_analysis/sleep_analyzer.py:89-116 | without data nothing changes; otherwise the frame gains the smoothed, noise and REM columns of its samples, and nothing else changes |
| Analyzer.SleepAnalyzer.CalculateStatistics | sleep_analysis/sleep_analyzer.py:120-211 | without data it returns None; otherwise it returns and stores the record of the annotated night, with the streaks of the loop and the hourly list, and changes nothing else |
| Analyzer.PipelineNoiseRatio | sleep_analysis/sleep_analyzer.py:110-136 | after load, preprocess and statistics, the noise ratio is 0 exactly when every sample is below the threshold and 100 exactly when none is |
| Analyzer.PipelineRemRatioBelow100 | sleep_analysis/sleep_analyzer.py:114-171 | after preprocessing the REM ratio is below 100 |
| Hypothesis.GetOrZero | sleep_analysis/hypothesis_test.py:49-50 | `get(key, 0)` is the stored value when the key is present and 0 otherwise |
| Hypothesis.Attach | sleep_analysis/hypothesis_test.py:48-50 | phone and game minutes are attached exactly when the experiment information is given and non-empty, with value `get(key, 0)`; the base record is kept |
| Hypothesis.AttachDefaultsToZero | sleep_analysis/hypothesis_test.py:48-50 | information holding only the game minutes still attaches 0 phone minutes; an empty dictionary attaches nothing |
| Hypothesis.Registered | sleep_analysis/hypothesis_test.py:52-53 | after a store the keys are the old keys plus the name, the old order is a prefix, and no key is repeated |
| Hypothesis.DistinctCardinality | sleep_analysis/hypothesis_test.py:52-53 | a repetition-free key order has as many entries as the set of keys |
| Hypothesis.MetricValueOfMissing | sleep_analysis/hypothesis_test.py:70-83 | a missing key is an empty (NaN) cell; the phone cell is empty exactly where no minutes were attached; the four base metrics are always present |
| Hypothesis.Available | sleep_analysis/hypothesis_test.py:82 | the available metrics are exactly the key metrics present as columns |
| Hypothesis.RowOf | sleep_analysis/hypothesis_test.py:70-83 | a row holds, column by column, the condition's value for that metric |
| Hypothesis.NoiseRatios | sleep_analysis/hypothesis_test.py:111-117 | the list of noise ratios has one entry per condition, in registry order |
| Hypothesis.PhoneConditions | sleep_analysis/hypothesis_test.py:149-150 | the listed conditions are exactly those carrying phone minutes |
| Hypothesis.PhoneListsAligned | sleep_analysis/hypothesis_test.py:146-154 | entry k of the phone-minute list and of the noise-ratio list belong to the same k-th condition with phone minutes |
| Hypothesis.VerdictLabel | sleep_analysis/hypothesis_test.py:196-201 | the label is "지지" exactly for a supported hypothesis |
| Hypothesis.Decide | sleep_analysis/hypothesis_test.py:182-201 | the difference is B minus A, and the hypothesis is supported exactly when the difference's size reaches the threshold |
| Hypothesis.DecideExamples | sleep_analysis/hypothesis_test.py:182-201 | A = 2.0, B = 8.5 at threshold 5 is supported with difference 6.5; B = 5.0 is rejected with difference 3.0 |
| Hypothesis.DecideSymmetric | sleep_analysis/hypothesis_test.py:185-196 | swapping A and B negates the difference and keeps the verdict |
| Hypothesis.DecideThresholdMonotone | sleep_analysis/hypothesis_test.py:196 | lowering the threshold never turns support into rejection |
| Hypothesis.RunAnalyzer | sleep_analysis/hypothesis_test.py:42-45 | a fresh analyzer stores the statistics of the night at the registry's threshold, with the inferred interval; the noise ratio is a percentage |
| Hypothesis.RegistryStore | sleep_analysis/hypothesis_test.py:52-53 | storing a record with a percentage noise ratio under a name keeps the registry invariant |
| Hypothesis.HypothesisTest.constructor | sleep_analysis/hypothesis_test.py:18-21 | a new registry keeps the threshold and is empty |
| Hypothesis.HypothesisTest.RegistrySize | sleep_analysis/hypothesis_test.py:52-53 | the registry holds as many conditions as its key order lists |
| Hypothesis.HypothesisTest.AnalyzeCondition | sleep_analysis/hypothesis_test.py:23-55 | the returned record is the night's statistics with the experiment minutes attached; it is stored under the name, replacing an earlier one; the name's analyzer is fresh and holds the same base statistics; the other entries are unchanged |
| Hypothesis.HypothesisTest.Store | sleep_analysis/hypothesis_test.py:52-53 | the record and the analyzer go under the name; the key order gains the name if it is new; nothing else changes |
| Hypothesis.HypothesisTest.CompareConditions | sleep_analysis/hypothesis_test.py:57-91 | None exactly with fewer than two conditions; otherwise one row per condition in registry order, with the five base key metrics as columns and then the phone minutes if any condition carries them |
| Hypothesis.HypothesisTest.TestHypothesis1 | sleep_analysis/hypothesis_test.py:93-126 | the per-condition map holds every condition's noise ratio and nothing else; the average is the mean of the ratios, or None (NaN) with no condition |
| Hypothesis.HypothesisTest.TestHypothesis2 | sleep_analysis/hypothesis_test.py:128-205 | the two data lists are those of the conditions with phone minutes, in order; the correlation is computed exactly when there are at least two; the A/B decision exists exactly when both A and B are registered |
| Hypothesis.AvailableKeyMetrics | sleep_analysis/hypothesis_test.py:73-83 | with at least one condition the available metrics are the five base ones, then the phone minutes exactly when some condition carries them |
| Hypothesis.AvailableAllPresent | sleep_analysis/hypothesis_test.py:82 | metrics that are all present as columns are all kept, in order |
| Hypothesis.Hypothesis1AverageBounds | sleep_analysis/hypothesis_test.py:117-118 | the average noise ratio lies between the smallest and largest condition's ratio, within [0, 100] |
| Hypothesis.PhoneDataLength | sleep_analysis/hypothesis_test.py:146-170 | both phone lists have one entry per condition with phone minutes, never more than there are conditions |
| AppRules.NoiseInterpretationBands | sleep_analysis/app.py:397-404 | each verdict covers exactly its band of noise ratios: below 1, [1, 3), [3, 5), 5 and above |
| AppRules.NoiseInterpretationMonotone | sleep_analysis/app.py:397-404 | more noise never earns a better verdict |
| AppRules.QuietNightIsVeryGood | sleep_analysis/app.py:397-404 | a night entirely below the threshold is rated very good; one never below it needs improvement |
| AppRules.ReportAgreesWithVerdict | sleep_analysis/app.py:765-770 | the report's three lines match the page's verdicts, with the two worst verdicts merged |
| AppRules.OverallQualityCases | sleep_analysis/app.py:557-568 | the grade is excellent exactly above 50% deep sleep, good in (30, 50], needs work exactly with at most 30% deep and over 30% restless, otherwise fair |
| AppRules.OverallQualityMonotone | sleep_analysis/app.py:557-568 | more deep sleep or less restlessness never lowers the grade |
| AppRules.FirstArgMax | sleep_analysis/app.py:527-528 | `max(..., key=...)` picks an index whose key is the largest, with every earlier key strictly smaller |
| AppRules.FirstArgMaxUnique | sleep_analysis/app.py:527-528 | the first maximal index is the only one with both properties |
| AppRules.BestHour | sleep_analysis/app.py:527 | the best hour is one of the hourly entries with the largest deep share; None exactly on an empty list |
| AppRules.WorstHour | sleep_analysis/app.py:528 | the worst hour is one of the hourly entries with the largest restless share; None exactly on an empty list |
| AppRules.BestAndWorstHourAreEarliest | sleep_analysis/app.py:527-528 | on a tie the earliest hour is chosen |
| AppRules.RemSpans | sleep_analysis/app.py:451-469 | the span loop returns exactly the spans defined by `RemSpansOf` |
| AppRules.SpanHours | sleep_analysis/app.py:458-468 | a span shades from its first to its last sample's elapsed hour, a width of (length − 1) × interval / 3600 |
| AppRules.RemSpansAreMaximalRuns | sleep_analysis/app.py:451-469 | every span is a maximal run of REM samples; spans are in order with gaps; every REM sample is shaded |
| AppRules.RemSpanLengthsAreStreaks | sleep_analysis/app.py:451-469 | the span lengths are the run lengths the streak loop of the statistics computes on the same column |
| DbMeter.StripStart | sleep_analysis/convert_dbmeter.py:38 | `lstrip` removes a whitespace prefix and leaves no leading whitespace |
| DbMeter.StripEnd | sleep_analysis/convert_dbmeter.py:38 | `rstrip` removes a whitespace suffix and leaves no trailing whitespace |
| DbMeter.Strip | sleep_analysis/convert_dbmeter.py:38 | a stripped line neither starts nor ends with whitespace |
| DbMeter.StripShape | sleep_analysis/convert_dbmeter.py:38 | the input is the stripped text with only whitespace before and after it |
| DbMeter.StripIdempotent | sleep_analysis/convert_dbmeter.py:48-49 | stripping twice is stripping once |
| DbMeter.Find | sleep_analysis/convert_dbmeter.py:56 | the search returns -1 or an index where the pattern fits; `FindFacts` makes it the first occurrence |
| DbMeter.FindFacts | sleep_analysis/convert_dbmeter.py:56 | a found index is an occurrence and no earlier index is; when nothing is found there is no occurrence |
| DbMeter.Split | sleep_analysis/convert_dbmeter.py:44 | `split` returns at least one piece; `SplitWhole`, `SplitPiecesLackSeparator` and `JoinSplit` pin the pieces down |
| DbMeter.SplitWhole | sleep_analysis/convert_dbmeter.py:44-46 | the split has a single piece exactly when the separator is absent, and that piece is the text |
| DbMeter.SplitPiecesLackSeparator | sleep_analysis/convert_dbmeter.py:44 | no piece contains the separator |
| DbMeter.JoinSplit | sleep_analysis/convert_dbmeter.py:44 | joining the pieces with the separator gives back the text |
| DbMeter.WordEnd | sleep_analysis/convert_dbmeter.py:61 | the leading token ends at the first whitespace or the end of the text |
| DbMeter.WordsAreWords | sleep_analysis/convert_dbmeter.py:61 | every token of `split()` is non-empty and free of whitespace |
| DbMeter.ReplaceAll | sleep_analysis/convert_dbmeter.py:53 | `replace` introduces no character outside the text and the replacement; `ReplaceAbsent` and `RemoveCharRemovesAll` state what is replaced |
| DbMeter.ReplaceAbsent | sleep_analysis/convert_dbmeter.py:53 | without an occurrence, `replace` changes nothing |
| DbMeter.RemoveCharRemovesAll | sleep_analysis/convert_dbmeter.py:61 | `replace('.', '')` leaves no dot |
| DbMeter.ParseIntShowNat | sleep_analysis/convert_dbmeter.py:65 | `int(str(n)) == n` |
| DbMeter.ParseIntPad2 | sleep_analysis/convert_dbmeter.py:74 | `int` of a two-digit zero-padded field is its value |
| DbMeter.DaysInMonth | sleep_analysis/convert_dbmeter.py:74 | months have 28 to 31 days, 29 exactly for February of a leap year |
| DbMeter.CalendarExamples | sleep_analysis/convert_dbmeter.py:74 | 29 February exists in 2024 and 2000 but not in 2025 or 1900; 31 April and hour 24 never exist |
| DbMeter.MakeDateTime | sleep_analysis/convert_dbmeter.py:74 | `datetime(...)` succeeds exactly on a valid calendar date and clock time |
| DbMeter.NotAfterIsTotalOrder | sleep_analysis/convert_dbmeter.py:90 | datetime comparison is total, antisymmetric and transitive |
| DbMeter.Hour12 | sleep_analysis/convert_dbmeter.py:68-71 | a clock-face hour is between 1 and 12 |
| DbMeter.To24HourBijection | sleep_analysis/convert_dbmeter.py:68-71 | the AM/PM conversion maps clock-face hours one-to-one onto 0..23, PM exactly on 12..23 |
| DbMeter.To24HourExamples | sleep_analysis/convert_dbmeter.py:68-71 | 3 AM is 3, 3 PM is 15, 12 AM is 0, 12 PM is 12 |
| DbMeter.SplitAtMeridiem | sleep_analysis/convert_dbmeter.py:56-58 | the split fails exactly when neither " AM " nor " PM " occurs, and it is PM exactly when " AM " does not occur |
| DbMeter.DateTimeOfParts | sleep_analysis/convert_dbmeter.py:61-74 | a parsed timestamp is a valid date and time |
| DbMeter.ParseDateTime | sleep_analysis/convert_dbmeter.py:53-74 | a parsed timestamp is valid and its text carried an AM or PM marker |
| DbMeter.ParseLine | sleep_analysis/convert_dbmeter.py:38-77 | a blank line or one not splitting into two comma parts is skipped; an accepted line's dB is `float` of its stripped second part and its time the parse of its stripped first part |
| DbMeter.ParseFormatLine | sleep_analysis/convert_dbmeter.py:43-77 | a line in the meter's export format parses back to its timestamp and dB value |
| DbMeter.ParseLineExample | sleep_analysis/convert_dbmeter.py:43 | "2025. 11. 15. 오전 3:02:46, 53.058983" parses to 2025-11-15 03:02:46 |
| DbMeter.KeptAppend | sleep_analysis/convert_dbmeter.py:37-81 | a failing line skips only itself: the readings of two blocks of lines are those of each block |
| DbMeter.KeptMembers | sleep_analysis/convert_dbmeter.py:37-81 | a reading is kept exactly when some line parses to it, and there are never more readings than lines |
| DbMeter.KeptSatisfy | sleep_analysis/convert_dbmeter.py:37-81 | what the parse promises of a reading holds of every kept reading |
| DbMeter.AcceptedFormatLines | sleep_analysis/convert_dbmeter.py:37-81 | a file of export-format lines is read back reading for reading, in order |
| DbMeter.FormatLines | sleep_analysis/convert_dbmeter.py:43 | one export line per timestamp |
| DbMeter.InsertByTime | sleep_analysis/convert_dbmeter.py:90 | insertion adds exactly one reading |
| DbMeter.InsertSorted | sleep_analysis/convert_dbmeter.py:90 | inserting into time-ordered readings keeps them time-ordered |
| DbMeter.SortByTime | sleep_analysis/convert_dbmeter.py:90 | `sort_values('시간')` gives the same readings in time order |
| DbMeter.ConvertDbMeterData | sleep_analysis/convert_dbmeter.py:30-116 | None exactly when no line parses (the summary of the empty frame fails); otherwise the readings are time-ordered and are exactly the readings of the lines that parse, with their multiplicities |
| DbMeter.NothingAccepted | sleep_analysis/convert_dbmeter.py:37-96 | no reading is accepted exactly when every line is skipped |
| DbMeter.KeptEmptyIff | sleep_analysis/convert_dbmeter.py:37-81 | nothing is kept exactly when no item parses |
| DbMeter.ConvertedReadings | sleep_analysis/convert_dbmeter.py:37-90 | a reading is in the result exactly when a line parses to it; every timestamp is valid; there are no more readings than lines |
| DbMeter.KeptReordered | sleep_analysis/convert_dbmeter.py:37-90 | any reordering of the kept results keeps their membership, their count bound and what the parse promises |

## Left out

- File and console I/O are not modelled: `read_csv`, `readlines`, `to_csv`, the printed progress lines and the output file name. The one print that changes the result, the summary that fails on an empty frame, is modelled in `ConvertDbMeterData`. The models start from the column values or the file's lines.
- The plots, the Streamlit widgets and their layout are not modelled. Nor are the alternative front ends (`menu_app.py`, `quick_analysis.py`) and the sample-data generator.
- Column detection and CSV header handling in `load_data` are not modelled: the stripped column names, the `Time` and `Decibel` aliases. `LoadData` receives the `dB` column and the parsed `시간` column; a time that `to_datetime` cannot parse is None.
- The failure path of `load_data` is not modelled. It catches an exception and returns None, leaving the analyzer unchanged.
- Floating point is not modelled: decibels are exact reals, so the band sum is exactly 100 where the program gets it within rounding. pandas' NaN is None.
- The standard deviation is kept as the sample variance (ddof = 1). The square root is not modelled; `StdBoundsAsVariance` shows the REM test is unaffected.
- `scipy.stats.pearsonr` is not modelled. `TestHypothesis2` models the gate on at least two data points but not the coefficient or the p-value.
- The fixed text fields of the result dictionaries are not modelled (the hypothesis sentences, the method description).
- Python's `float()` is a parameter `parseFloat` of the conversion.
- `int()` is modelled for ASCII digits with an optional sign and surrounding whitespace. Underscores between digits and non-ASCII digits are not handled.
- DbMeter.IsSpace: `strip`, `split()` and `int()` treat as whitespace the characters of Python's `str.isspace`. These are the ASCII tab to carriage return, the separators 0x1C to 0x1F and the space, plus the Unicode spaces listed in the predicate.
- Timestamps within a night are modelled as elapsed seconds (the `time_hours` axis), not as wall-clock datetimes.
- The converted data frame is a list of readings rather than two parallel columns.
- DbMeter.SortByTime: pandas' default sort is not stable. The model therefore promises only time order and the same multiset of readings, not the order among equal timestamps.
- Analyzer.SleepAnalyzer.CalculateStatistics: requires a non-empty, preprocessed frame. On an empty frame the source fails at `time_hours[-1]`. Without `preprocess_data` it fails at the missing `is_noise` column. The optional REM ratio is therefore always present in the model.
- Hypothesis.HypothesisTest.AnalyzeCondition: requires a non-empty night. Two source cases are excluded. After a load failure, preprocessing and the statistics return early; without experiment information the source then stores and returns None, and with non-empty information it raises a TypeError. A file with a header but no rows loads, and then `calculate_statistics` raises an IndexError at `time_hours[-1]`.
- Hypothesis.HypothesisTest.AnalyzeCondition: in the source, `calculate_statistics` returns the analyzer's own statistics dictionary. `analyze_condition` writes the phone and game minutes into that same dictionary, so the stored analyzer's statistics also gain the minutes. The model does not capture this sharing: the stored analyzer keeps the base record, and the registry holds the record with the minutes.
- Analyzer.SleepAnalyzer.PreprocessData: requires a window width of at least 1. With data loaded, pandas raises a ValueError for a width of 0; every caller uses the default width 5.
- Analyzer.SleepAnalyzer.LoadData: leaves an earlier statistics record in place, as the source does; it is not invalidated.
- Preprocessing.Window: follows pandas' centred window, which for an even width w reaches one sample further back than forward.
- AppRules.BestHour: on an empty hourly list Python's `max` raises; the model returns None. AppRules.WorstHour does the same.
- AppRules.RemSpans: the legend label of the first span and the `rem_count` counter are not modelled. A span is given by sample indices; `SpanHours` maps it onto the elapsed-hour axis.
- Streaks.StreakSecondsFacts: states the bounds of the average streak duration, not its defining equation (that is the body of `AverageStreakSeconds`).
- DbMeter.Contains: is defined only for a non-empty pattern; every pattern the conversion searches for is non-empty.
- Hypothesis.HypothesisTest.TestHypothesis2: does not model the correlation's value or p-value, only whether it is computed.
- Statistics.Hourly: only hours `0 .. ceil(last elapsed hour) − 1` are visited, so a one-record night and a last record exactly on a whole hour get no entry (`SingleRecordHasNoHourly`, `LastRecordOnWholeHourLeftOut`).
- Hypothesis.HypothesisTest.TestHypothesis1: an empty registry averages an empty list to NaN, modelled as None.
- Statistics.FirstHourNoiseRatio: an interval over an hour divides 0 by 0 (NaN), modelled as None.
