/** `SleepAnalyzer`: the object that holds one night of decibel samples, the
    measurement interval inferred from its timestamps, the columns preprocessing
    adds, and the statistics record computed from them. */
module Analyzer {
  import opened Common
  import opened Preprocessing
  import opened Streaks
  import opened Statistics

  /** The columns `preprocess_data` adds to the frame. */
  datatype Annotations = Annotations(smoothed: seq<real>, isNoise: seq<bool>, isRem: seq<bool>)

  /** The loaded frame: the `dB` column and, once preprocessed, the added columns. */
  datatype Frame = Frame(db: seq<real>, annotations: Option<Annotations>)
  {
    /** Every added column has one entry per sample. */
    predicate WellFormed()
    {
      annotations.Some? ==>
        |annotations.value.smoothed| == |db| &&
        |annotations.value.isNoise| == |db| &&
        |annotations.value.isRem| == |db|
    }
  }

  /** The default sampling interval, in seconds. */
  const DefaultInterval: real := 1.0

  /** The interval `load_data` infers. `times` is the parsed `시간` column, absent when
      the file has no time column; a timestamp that failed to parse (NaT) is None and
      a time is seconds since midnight, as `%H:%M:%S` parses it. The difference of the
      first two timestamps is taken when there are at least two records and it is
      positive; otherwise the interval falls back to one second. */
  function InferInterval(times: Option<seq<Option<real>>>): (r: real)
    ensures r > 0.0
    ensures (times.Some? && |times.value| > 1 &&
             times.value[0].Some? && times.value[1].Some? &&
             times.value[1].value - times.value[0].value > 0.0)
            ==> r == times.value[1].value - times.value[0].value
    ensures !(times.Some? && |times.value| > 1 &&
              times.value[0].Some? && times.value[1].Some? &&
              times.value[1].value - times.value[0].value > 0.0)
            ==> r == DefaultInterval
  {
    match times
    case None => DefaultInterval
    case Some(ts) =>
      if |ts| > 1 then
        match (ts[0], ts[1])
        case (Some(t0), Some(t1)) => if t1 - t0 > 0.0 then t1 - t0 else DefaultInterval
        case _ => DefaultInterval
      else DefaultInterval
  }

  /** Records one second apart give an interval of one second; records a minute apart
      give sixty; timestamps out of order fall back to the default. */
  lemma InferIntervalExamples()
    ensures InferInterval(Some([Some(0.0), Some(60.0), Some(120.0)])) == 60.0
    ensures InferInterval(Some([Some(10.0), Some(5.0)])) == DefaultInterval
    ensures InferInterval(Some([Some(10.0), None])) == DefaultInterval
    ensures InferInterval(Some([Some(10.0)])) == DefaultInterval
    ensures InferInterval(None) == DefaultInterval
  {
  }

  /** The annotations of a night of samples at a given threshold and window width. */
  function Annotate(db: seq<real>, thresholdDb: real, windowSize: nat): (a: Annotations)
    requires windowSize >= 1
    ensures Frame(db, Some(a)).WellFormed()
  {
    Annotations(Smooth(db, windowSize), NoiseFlags(db, thresholdDb), RemFlags(db))
  }

  class SleepAnalyzer {
    var thresholdDb: real
    /** None until a file is loaded. */
    var data: Option<Frame>
    /** None while the statistics dictionary is still empty. */
    var stats: Option<Stats>
    var measurementInterval: real

    /** The interval is always positive and the frame's columns line up. */
    predicate Valid()
      reads this
    {
      measurementInterval > 0.0 && (data.Some? ==> data.value.WellFormed())
    }

    /** A fresh analyzer: no data, empty statistics, a one-second interval. */
    constructor(thresholdDb: real)
      ensures Valid()
      ensures this.thresholdDb == thresholdDb
      ensures data == None && stats == None
      ensures measurementInterval == DefaultInterval
    {
      this.thresholdDb := thresholdDb;
      data := None;
      stats := None;
      measurementInterval := DefaultInterval;
    }

    /** `load_data` once the file is read: the new frame replaces the old one (without
        any preprocessed columns) and the interval is inferred from its timestamps.
        The statistics of an earlier night are left as they were. */
    method LoadData(db: seq<real>, times: Option<seq<Option<real>>>)
      requires times.Some? ==> |times.value| == |db|
      modifies this
      ensures Valid()
      ensures data == Some(Frame(db, None))
      ensures measurementInterval == InferInterval(times)
      ensures thresholdDb == old(thresholdDb) && stats == old(stats)
    {
      measurementInterval := InferInterval(times);
      data := Some(Frame(db, None));
    }

    /** `preprocess_data`: without data nothing changes; otherwise the smoothed,
        noise and REM columns are computed from `dB` and replace any earlier ones. */
    method PreprocessData(windowSize: nat)
      requires Valid() && windowSize >= 1
      modifies this
      ensures Valid()
      ensures old(data) == None ==> data == None
      ensures old(data).Some? ==>
        data == Some(Frame(old(data).value.db, Some(Annotate(old(data).value.db, thresholdDb, windowSize))))
      ensures thresholdDb == old(thresholdDb) && stats == old(stats)
      ensures measurementInterval == old(measurementInterval)
    {
      if data.None? {
        return;
      }
      var db := data.value.db;
      data := Some(Frame(db, Some(Annotate(db, thresholdDb, windowSize))));
    }

    /** `calculate_statistics`: None without data; otherwise the streak loop and the
        hourly loop run over the annotated night and the resulting record is stored and
        returned. The source reads the `is_noise` column and the last elapsed time, so
        it needs a preprocessed, non-empty night. */
    method CalculateStatistics() returns (r: Option<Stats>)
      requires Valid()
      requires data.Some? ==> data.value.annotations.Some? && |data.value.db| > 0
      modifies this
      ensures Valid()
      ensures data == old(data) && thresholdDb == old(thresholdDb)
      ensures measurementInterval == old(measurementInterval)
      ensures old(data) == None ==> r == None && stats == old(stats)
      ensures old(data).Some? ==>
        r == Some(StatsOf(data.value.db, data.value.annotations.value.isNoise,
                          data.value.annotations.value.isRem, measurementInterval))
      ensures old(data).Some? ==> stats == r
    {
      if data.None? {
        return None;
      }
      var db := data.value.db;
      var isNoise := data.value.annotations.value.isNoise;
      var isRem := data.value.annotations.value.isRem;
      var interval := measurementInterval;
      var consecutive := NoiseStreaks(isNoise);
      var hourlyQuality := HourlyQuality(db, interval);
      stats := Some(Assemble(db, isNoise, isRem, interval, consecutive, hourlyQuality));
      r := stats;
    }
  }

  /** Loading, preprocessing and computing the statistics of a night: the stored
      noise count is the number of samples at or above the threshold, and the noise
      ratio is their share, 0 exactly on a quiet night and 100 exactly on a night
      that never falls below the threshold. */
  lemma PipelineNoiseRatio(db: seq<real>, thresholdDb: real, interval: real)
    requires |db| > 0 && interval > 0.0
    ensures var st := StatsOf(db, NoiseFlags(db, thresholdDb), RemFlags(db), interval);
      0.0 <= st.noiseRatio <= 100.0 &&
      (st.noiseRatio == 0.0 <==> forall i :: 0 <= i < |db| ==> db[i] < thresholdDb) &&
      (st.noiseRatio == 100.0 <==> forall i :: 0 <= i < |db| ==> db[i] >= thresholdDb)
  {
    var f := NoiseFlags(db, thresholdDb);
    RatioFacts(db, f, RemFlags(db), interval);
  }

  /** After preprocessing no night is all REM: the REM ratio stays under 100%. */
  lemma PipelineRemRatioBelow100(db: seq<real>, thresholdDb: real, interval: real)
    requires |db| > 0 && interval > 0.0
    ensures StatsOf(db, NoiseFlags(db, thresholdDb), RemFlags(db), interval).remRatio < 100.0
  {
    RemNotEverywhere(db);
  }
}
