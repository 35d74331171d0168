/** The reductions `SleepAnalyzer.calculate_statistics` computes over an annotated
    night: noise and REM ratios, streak durations, the first-hour noise ratio, the four
    fixed sleep bands and the hour-by-hour quality list, gathered in one record. */
module Statistics {
  import opened Common
  import opened Preprocessing
  import opened Streaks

  /** The four fixed decibel bands: deep sleep, light sleep, restless, disturbed. */
  datatype Band = Deep | Light | Restless | Disturbed

  /** The band of one sample. The four conditions are the source's four independent
      masks; that exactly one holds of every level is what makes them a partition. */
  function BandOf(db: real): (b: Band)
    ensures b == Deep <==> db < 30.0
    ensures b == Light <==> 30.0 <= db && db < 35.0
    ensures b == Restless <==> 35.0 <= db && db < 40.0
    ensures b == Disturbed <==> db >= 40.0
  {
    if db < 30.0 then Deep
    else if db < 35.0 then Light
    else if db < 40.0 then Restless
    else Disturbed
  }

  /** Number of samples of `s` in band `b`. */
  function CountBand(s: seq<real>, b: Band): (r: nat)
    ensures r <= |s|
  {
    if s == [] then 0
    else CountBand(s[..|s| - 1], b) + (if BandOf(s[|s| - 1]) == b then 1 else 0)
  }

  /** Every sample falls in exactly one band, so the four counts add up to the length. */
  lemma {:induction false} BandCountsPartition(s: seq<real>)
    ensures CountBand(s, Deep) + CountBand(s, Light) + CountBand(s, Restless)
            + CountBand(s, Disturbed) == |s|
  {
    if s != [] {
      BandCountsPartition(s[..|s| - 1]);
    }
  }

  /** At the default threshold of 40 dB the noise samples are exactly the disturbed ones. */
  lemma {:induction false} NoiseAtDefaultThresholdIsDisturbed(s: seq<real>)
    ensures CountTrue(NoiseFlags(s, 40.0)) == CountBand(s, Disturbed)
  {
    if s != [] {
      NoiseAtDefaultThresholdIsDisturbed(s[..|s| - 1]);
      assert NoiseFlags(s, 40.0)[..|s| - 1] == NoiseFlags(s[..|s| - 1], 40.0);
    }
  }

  /** Number of records counted as the first hour of sleep: `int(3600 / interval)`
      records, or the whole night if it is shorter. */
  function FirstHourCount(n: nat, interval: real): (r: nat)
    requires interval > 0.0
    ensures r <= n
  {
    var perHour := (3600.0 / interval).Floor;
    if perHour < n then (if perHour < 0 then 0 else perHour) else n
  }

  /** The first-hour count is at least one record whenever the night is not empty and
      the interval is at most an hour; at a longer interval `int(3600 / interval)` is 0. */
  lemma FirstHourCountZeroIff(n: nat, interval: real)
    requires n > 0 && 0.0 < interval
    ensures FirstHourCount(n, interval) == 0 <==> interval > 3600.0
  {
    if interval <= 3600.0 {
      assert 3600.0 / interval >= 1.0 by { QuotientAtLeastOne(3600.0, interval); }
    } else {
      assert 0.0 <= 3600.0 / interval < 1.0 by { QuotientBelowOne(3600.0, interval); }
    }
  }

  lemma QuotientAtLeastOne(a: real, b: real)
    requires 0.0 < b <= a
    ensures a / b >= 1.0
  {
    var q := a / b;
    assert q * b == a;
  }

  lemma QuotientBelowOne(a: real, b: real)
    requires 0.0 <= a < b
    ensures 0.0 <= a / b < 1.0
  {
    var q := a / b;
    assert q * b == a;
  }

  /** Share of noise among the first-hour records, by position. With an interval over an
      hour no record is counted and the division `0 / 0` gives NaN, modelled as None. */
  function FirstHourNoiseRatio(isNoise: seq<bool>, interval: real): (r: Option<real>)
    requires |isNoise| > 0 && 0.0 < interval
    ensures r.None? <==> interval > 3600.0
    ensures r.Some? ==> 0.0 <= r.value <= 100.0
    ensures r.Some? ==>
      (r.value == 0.0 <==> forall i :: 0 <= i < FirstHourCount(|isNoise|, interval) ==> !isNoise[i])
  {
    FirstHourCountZeroIff(|isNoise|, interval);
    var count := FirstHourCount(|isNoise|, interval);
    var head := isNoise[..count];
    assert CountTrue(head) == 0 <==> forall i :: 0 <= i < count ==> !isNoise[i] by {
      CountTrueZeroIff(head);
    }
    if count == 0 then None else Some(Percent(CountTrue(head), count))
  }

  /** Elapsed time of record `k` in hours, `k * interval / 3600` (the `time_hours` array). */
  function ElapsedHours(k: nat, interval: real): real
  {
    k as real * interval / 3600.0
  }

  /** Record `k` belongs to hour `h` when `h <= time_hours[k] < h + 1`. */
  predicate InHour(k: nat, interval: real, h: nat)
  {
    h as real <= ElapsedHours(k, interval) < (h + 1) as real
  }

  /** The samples of hour `h`, in order (`self.data.loc[hour_mask, 'dB']`). */
  function HourData(s: seq<real>, interval: real, h: nat): (r: seq<real>)
    ensures |r| <= |s|
  {
    if s == [] then []
    else
      HourData(s[..|s| - 1], interval, h)
      + (if InHour(|s| - 1, interval, h) then [s[|s| - 1]] else [])
  }

  /** An hour's samples are drawn from the night: none is invented or repeated. */
  lemma {:induction false} HourDataSelects(s: seq<real>, interval: real, h: nat)
    ensures multiset(HourData(s, interval, h)) <= multiset(s)
  {
    if s != [] {
      HourDataSelects(s[..|s| - 1], interval, h);
      assert s == s[..|s| - 1] + [s[|s| - 1]];
    }
  }

  /** Number of hours the hourly loop visits: `int(np.ceil(time_hours[-1]))`. */
  function HourCount(n: nat, interval: real): (r: nat)
    requires n > 0 && interval > 0.0
  {
    var last := ElapsedHours(n - 1, interval);
    assert last >= 0.0 by { ElapsedHoursNonNegative(n - 1, interval); }
    Ceil(last)
  }

  lemma ElapsedHoursNonNegative(k: nat, interval: real)
    requires interval > 0.0
    ensures ElapsedHours(k, interval) >= 0.0
  {
  }

  /** One entry of the hourly quality list. */
  datatype HourBucket = HourBucket(hour: nat, avgDb: real, deepPct: real, restlessPct: real)

  /** Whether hour `h` holds at least one record (`hour_mask.sum() > 0`). */
  predicate Occupied(s: seq<real>, interval: real, h: nat)
  {
    |HourData(s, interval, h)| > 0
  }

  /** The hours below `hours` that `keep` selects, in increasing order. */
  function HoursWhere(hours: nat, keep: nat -> bool): seq<nat>
  {
    if hours == 0 then []
    else HoursWhere(hours - 1, keep) + (if keep(hours - 1) then [hours - 1] else [])
  }

  /** The hours below `hours` that hold a record, in increasing order: the hours the
      loop appends an entry for. */
  function OccupiedHours(s: seq<real>, interval: real, hours: nat): seq<nat>
  {
    HoursWhere(hours, (h: nat) => Occupied(s, interval, h))
  }

  /** The entry of an occupied hour: its mean level and its deep and restless shares. */
  function Bucket(s: seq<real>, interval: real, h: nat): (b: HourBucket)
    requires Occupied(s, interval, h)
    ensures b.hour == h
  {
    var d := HourData(s, interval, h);
    HourBucket(h, Mean(d), Percent(CountBand(d, Deep), |d|), Percent(CountBand(d, Restless), |d|))
  }

  /** The entries of a list of occupied hours, in the same order. */
  function Buckets(s: seq<real>, interval: real, hs: seq<nat>): (r: seq<HourBucket>)
    requires forall k :: 0 <= k < |hs| ==> Occupied(s, interval, hs[k])
    ensures |r| == |hs|
  {
    if hs == [] then []
    else Buckets(s, interval, hs[..|hs| - 1]) + [Bucket(s, interval, hs[|hs| - 1])]
  }

  /** Exactly the occupied hours below `hours` are listed, in strictly increasing order. */
  lemma OccupiedHoursFacts(s: seq<real>, interval: real, hours: nat)
    ensures forall k :: 0 <= k < |OccupiedHours(s, interval, hours)| ==>
      OccupiedHours(s, interval, hours)[k] < hours && Occupied(s, interval, OccupiedHours(s, interval, hours)[k])
    ensures forall k, l :: 0 <= k < l < |OccupiedHours(s, interval, hours)| ==>
      OccupiedHours(s, interval, hours)[k] < OccupiedHours(s, interval, hours)[l]
    ensures forall h: nat :: h < hours && Occupied(s, interval, h) ==> h in OccupiedHours(s, interval, hours)
  {
    HoursWhereFacts(hours, (h: nat) => Occupied(s, interval, h));
  }

  /** Exactly the selected hours below `hours` are listed, in strictly increasing order. */
  lemma {:induction false} HoursWhereFacts(hours: nat, keep: nat -> bool)
    ensures forall k :: 0 <= k < |HoursWhere(hours, keep)| ==>
      HoursWhere(hours, keep)[k] < hours && keep(HoursWhere(hours, keep)[k])
    ensures forall k, l :: 0 <= k < l < |HoursWhere(hours, keep)| ==>
      HoursWhere(hours, keep)[k] < HoursWhere(hours, keep)[l]
    ensures forall h: nat :: h < hours && keep(h) ==> h in HoursWhere(hours, keep)
  {
    if hours > 0 {
      HoursWhereFacts(hours - 1, keep);
      var p := HoursWhere(hours - 1, keep);
      var q := if keep(hours - 1) then [hours - 1] else [];
      var r := p + q;
      assert r == HoursWhere(hours, keep);
      assert forall k :: 0 <= k < |p| ==> r[k] == p[k] && p[k] < hours - 1;
      assert forall k :: |p| <= k < |r| ==> r[k] == hours - 1;
      if keep(hours - 1) {
        assert r[|p|] == hours - 1;
      }
    }
  }

  /** Entry `k` of the list is the entry of hour `hs[k]`. */
  lemma {:induction false} BucketsAt(s: seq<real>, interval: real, hs: seq<nat>, k: nat)
    requires forall j :: 0 <= j < |hs| ==> Occupied(s, interval, hs[j])
    requires k < |hs|
    ensures Buckets(s, interval, hs)[k] == Bucket(s, interval, hs[k])
  {
    var p := hs[..|hs| - 1];
    if k < |hs| - 1 {
      BucketsAt(s, interval, p, k);
    }
  }

  /** Appending an occupied hour appends its entry. */
  lemma BucketsAppend(s: seq<real>, interval: real, hs: seq<nat>, h: nat)
    requires forall j :: 0 <= j < |hs| ==> Occupied(s, interval, hs[j])
    requires Occupied(s, interval, h)
    ensures Buckets(s, interval, hs + [h]) == Buckets(s, interval, hs) + [Bucket(s, interval, h)]
  {
    assert (hs + [h])[..|hs|] == hs;
  }

  /** The entries for the hours below `hours`, in hour order. */
  function HourlyUpTo(s: seq<real>, interval: real, hours: nat): seq<HourBucket>
  {
    OccupiedHoursFacts(s, interval, hours);
    Buckets(s, interval, OccupiedHours(s, interval, hours))
  }

  /** The hourly quality list of a non-empty night. */
  function Hourly(s: seq<real>, interval: real): seq<HourBucket>
    requires |s| > 0 && interval > 0.0
  {
    HourlyUpTo(s, interval, HourCount(|s|, interval))
  }

  /** The hourly loop of `calculate_statistics`: visit hours `0 .. ceil(last) - 1`,
      select the records of each, and append an entry for every non-empty hour. */
  method HourlyQuality(db: seq<real>, interval: real) returns (hourlyQuality: seq<HourBucket>)
    requires |db| > 0 && interval > 0.0
    ensures hourlyQuality == Hourly(db, interval)
  {
    hourlyQuality := [];
    var hours := HourCount(|db|, interval);
    for hour := 0 to hours
      invariant hourlyQuality == HourlyUpTo(db, interval, hour)
    {
      HourlyUpToStep(db, interval, hour);
      var hourData := HourData(db, interval, hour);
      if |hourData| > 0 {
        hourlyQuality := hourlyQuality + [Bucket(db, interval, hour)];
      }
    }
  }

  /** One more visited hour adds that hour's entry when it holds a record. */
  lemma HourlyUpToStep(s: seq<real>, interval: real, hour: nat)
    ensures HourlyUpTo(s, interval, hour + 1) ==
      HourlyUpTo(s, interval, hour) + (if Occupied(s, interval, hour) then [Bucket(s, interval, hour)] else [])
  {
    OccupiedHoursFacts(s, interval, hour);
    if Occupied(s, interval, hour) {
      assert OccupiedHours(s, interval, hour + 1) == OccupiedHours(s, interval, hour) + [hour];
      BucketsAppend(s, interval, OccupiedHours(s, interval, hour), hour);
    } else {
      assert OccupiedHours(s, interval, hour + 1) == OccupiedHours(s, interval, hour);
    }
  }

  /** The shares of one hourly entry are percentages, and the deep and restless shares
      together are at most the whole hour, since the bands do not overlap. */
  lemma BucketShares(s: seq<real>, interval: real, h: nat)
    requires Occupied(s, interval, h)
    ensures 0.0 <= Bucket(s, interval, h).deepPct <= 100.0
    ensures 0.0 <= Bucket(s, interval, h).restlessPct <= 100.0
    ensures Bucket(s, interval, h).deepPct + Bucket(s, interval, h).restlessPct <= 100.0
  {
    var d := HourData(s, interval, h);
    BandCountsPartition(d);
    PercentSumBound(CountBand(d, Deep), CountBand(d, Restless), |d|);
  }

  lemma PercentSumBound(a: nat, b: nat, n: nat)
    requires 0 < n && a + b <= n
    ensures Percent(a, n) + Percent(b, n) <= 100.0
  {
    assert Percent(a, n) + Percent(b, n) == Percent(a + b, n);
  }

  /** The hourly list of a night, as `calculate_statistics` stores it: its hours strictly
      increase and stay below the number of visited hours, each entry is the entry of an
      occupied hour with shares that are percentages summing to at most 100, and every
      occupied visited hour has an entry. */
  lemma HourlyFacts(s: seq<real>, interval: real)
    requires |s| > 0 && interval > 0.0
    ensures forall i, j :: 0 <= i < j < |Hourly(s, interval)| ==> Hourly(s, interval)[i].hour < Hourly(s, interval)[j].hour
    ensures forall i :: 0 <= i < |Hourly(s, interval)| ==>
      Hourly(s, interval)[i].hour < HourCount(|s|, interval) &&
      Occupied(s, interval, Hourly(s, interval)[i].hour) &&
      Hourly(s, interval)[i] == Bucket(s, interval, Hourly(s, interval)[i].hour)
    ensures forall i :: 0 <= i < |Hourly(s, interval)| ==>
      0.0 <= Hourly(s, interval)[i].deepPct <= 100.0 && 0.0 <= Hourly(s, interval)[i].restlessPct <= 100.0 &&
      Hourly(s, interval)[i].deepPct + Hourly(s, interval)[i].restlessPct <= 100.0
    ensures forall h: nat :: h < HourCount(|s|, interval) && Occupied(s, interval, h) ==>
      exists i :: 0 <= i < |Hourly(s, interval)| && Hourly(s, interval)[i].hour == h
  {
    var hours := HourCount(|s|, interval);
    var hs := OccupiedHours(s, interval, hours);
    var r := Hourly(s, interval);
    OccupiedHoursFacts(s, interval, hours);
    assert r == Buckets(s, interval, hs);
    forall i | 0 <= i < |r|
      ensures r[i] == Bucket(s, interval, hs[i]) && r[i].hour == hs[i]
    {
      BucketsAt(s, interval, hs, i);
    }
    forall i | 0 <= i < |r|
      ensures 0.0 <= r[i].deepPct <= 100.0 && 0.0 <= r[i].restlessPct <= 100.0
      ensures r[i].deepPct + r[i].restlessPct <= 100.0
    {
      BucketShares(s, interval, hs[i]);
    }
    forall h: nat | h < hours && Occupied(s, interval, h)
      ensures exists i :: 0 <= i < |r| && r[i].hour == h
    {
      var i :| 0 <= i < |hs| && hs[i] == h;
      assert r[i].hour == h;
    }
  }

  /** A night of a single record gets no hourly entry: the loop visits `ceil(0) = 0` hours. */
  lemma SingleRecordHasNoHourly(x: real, interval: real)
    requires interval > 0.0
    ensures Hourly([x], interval) == []
  {
    assert ElapsedHours(0, interval) == 0.0;
  }

  /** A last record that lands exactly on a whole hour belongs to no visited hour, so it
      is left out of the hourly list. */
  lemma LastRecordOnWholeHourLeftOut(n: nat, interval: real, h: nat)
    requires n > 0 && interval > 0.0
    requires ElapsedHours(n - 1, interval) == (HourCount(n, interval)) as real
    requires h < HourCount(n, interval)
    ensures !InHour(n - 1, interval, h)
  {
  }

  /** The statistics record (`self.stats`). The sample standard deviation is kept as its
      square, the sample variance; None stands for pandas' NaN on a one-record night. */
  datatype Stats = Stats(
    totalRecords: nat,
    totalMinutes: real,
    noiseRecords: nat,
    noiseRatio: real,
    meanDb: real,
    maxDb: real,
    minDb: real,
    varianceDb: Option<real>,
    avgStreakSeconds: real,
    maxStreakSeconds: real,
    remRatio: real,
    firstHourNoiseRatio: Option<real>,
    deepPct: real,
    lightPct: real,
    restlessPct: real,
    disturbedPct: real,
    hourly: seq<HourBucket>)

  /** The statistics record assembled from the annotated night and the results of the
      two loops of `calculate_statistics`: the list of noise streaks and the hourly list. */
  function Assemble(db: seq<real>, isNoise: seq<bool>, isRem: seq<bool>, interval: real,
                    runs: seq<nat>, hourly: seq<HourBucket>): Stats
    requires |db| > 0 && |isNoise| == |db| && |isRem| == |db|
    requires 0.0 < interval
  {
    var n := |db|;
    Stats(
      totalRecords := n,
      totalMinutes := n as real * interval / 60.0,
      noiseRecords := CountTrue(isNoise),
      noiseRatio := Percent(CountTrue(isNoise), n),
      meanDb := Mean(db),
      maxDb := Max(db),
      minDb := Min(db),
      varianceDb := SampleVariance(db),
      avgStreakSeconds := AverageStreakSeconds(runs, interval),
      maxStreakSeconds := LongestStreakSeconds(runs, interval),
      remRatio := Percent(CountTrue(isRem), n),
      firstHourNoiseRatio := FirstHourNoiseRatio(isNoise, interval),
      deepPct := Percent(CountBand(db, Deep), n),
      lightPct := Percent(CountBand(db, Light), n),
      restlessPct := Percent(CountBand(db, Restless), n),
      disturbedPct := Percent(CountBand(db, Disturbed), n),
      hourly := hourly)
  }

  /** The statistics of an annotated night, field by field as `calculate_statistics`
      computes them. */
  function StatsOf(db: seq<real>, isNoise: seq<bool>, isRem: seq<bool>, interval: real): Stats
    requires |db| > 0 && |isNoise| == |db| && |isRem| == |db|
    requires 0.0 < interval
  {
    Assemble(db, isNoise, isRem, interval, NoiseRuns(isNoise), Hourly(db, interval))
  }

  /** The noise and REM ratios are the flagged share of all records, within [0, 100];
      the noise ratio is 0 exactly on a noise-free night and 100 exactly when every
      record is noise. */
  lemma RatioFacts(db: seq<real>, isNoise: seq<bool>, isRem: seq<bool>, interval: real)
    requires |db| > 0 && |isNoise| == |db| && |isRem| == |db|
    requires 0.0 < interval
    ensures var st := StatsOf(db, isNoise, isRem, interval);
      st.noiseRatio == st.noiseRecords as real / st.totalRecords as real * 100.0 &&
      0.0 <= st.noiseRatio <= 100.0 && 0.0 <= st.remRatio <= 100.0 &&
      (st.noiseRatio == 0.0 <==> forall i :: 0 <= i < |isNoise| ==> !isNoise[i]) &&
      (st.noiseRatio == 100.0 <==> forall i :: 0 <= i < |isNoise| ==> isNoise[i])
  {
    CountTrueZeroIff(isNoise);
    CountTrueFullIff(isNoise);
  }

  /** The four band shares of a night add up to 100%. */
  lemma BandSharesSumTo100(db: seq<real>)
    requires |db| > 0
    ensures Percent(CountBand(db, Deep), |db|) + Percent(CountBand(db, Light), |db|)
          + Percent(CountBand(db, Restless), |db|) + Percent(CountBand(db, Disturbed), |db|) == 100.0
  {
    BandCountsPartition(db);
    var n := |db|;
    var d, l, r, x := CountBand(db, Deep), CountBand(db, Light), CountBand(db, Restless), CountBand(db, Disturbed);
    PercentAdd(d, l, n);
    PercentAdd(d + l, r, n);
    PercentAdd(d + l + r, x, n);
  }

  /** The stored band percentages add up to 100%. */
  lemma BandPercentsSumTo100(db: seq<real>, isNoise: seq<bool>, isRem: seq<bool>, interval: real)
    requires |db| > 0 && |isNoise| == |db| && |isRem| == |db|
    requires 0.0 < interval
    ensures StatsOf(db, isNoise, isRem, interval).deepPct + StatsOf(db, isNoise, isRem, interval).lightPct
          + StatsOf(db, isNoise, isRem, interval).restlessPct + StatsOf(db, isNoise, isRem, interval).disturbedPct == 100.0
  {
    BandSharesSumTo100(db);
  }

  lemma PercentAdd(a: nat, b: nat, n: nat)
    requires 0 < n
    ensures Percent(a, n) + Percent(b, n) == Percent(a + b, n)
  {
  }
}
