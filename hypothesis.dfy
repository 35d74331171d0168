/** `HypothesisTest`: a registry of per-condition sleep statistics keyed by condition
    name (A = usual night, B = phone before bed, C = minimal phone use), the comparison
    table over the registered conditions, and the two hypothesis checks. */
module Hypothesis {
  import opened Common
  import opened Preprocessing
  import opened Statistics
  import opened Analyzer

  /** Key of the phone-use minutes in the experiment information. */
  const PhoneKey: string := "폰사용시간(분)"
  /** Key of the game minutes in the experiment information. */
  const GameKey: string := "게임시간(분)"
  /** Window width `analyze_condition` preprocesses with (the method's default). */
  const DefaultWindow: nat := 5

  /** The statistics stored for one condition: the analyzer's record and, when
      experiment information was given, the phone and game minutes attached to it. */
  datatype ConditionStats = ConditionStats(base: Stats, phoneMinutes: Option<real>, gameMinutes: Option<real>)

  /** `experiment_info.get(key, 0)`. */
  function GetOrZero(info: map<string, real>, key: string): (r: real)
    ensures key in info ==> r == info[key]
    ensures key !in info ==> r == 0.0
  {
    if key in info then info[key] else 0.0
  }

  /** The minutes are attached only when the information is given and not empty (an
      empty dictionary is false in Python); a missing key counts as 0 minutes. */
  function Attach(base: Stats, info: Option<map<string, real>>): (r: ConditionStats)
    ensures r.base == base
    ensures r.phoneMinutes.Some? <==> info.Some? && |info.value| > 0
    ensures r.gameMinutes.Some? <==> r.phoneMinutes.Some?
    ensures r.phoneMinutes.Some? ==> r.phoneMinutes.value == GetOrZero(info.value, PhoneKey)
    ensures r.gameMinutes.Some? ==> r.gameMinutes.value == GetOrZero(info.value, GameKey)
  {
    match info
    case Some(m) =>
      if |m| > 0 then ConditionStats(base, Some(GetOrZero(m, PhoneKey)), Some(GetOrZero(m, GameKey)))
      else ConditionStats(base, None, None)
    case None => ConditionStats(base, None, None)
  }

  /** An experiment record with only the game minutes still attaches phone minutes, as 0. */
  lemma AttachDefaultsToZero(base: Stats)
    ensures Attach(base, Some(map[GameKey := 30.0])).phoneMinutes == Some(0.0)
    ensures Attach(base, Some(map[GameKey := 30.0])).gameMinutes == Some(30.0)
    ensures Attach(base, Some(map[])).phoneMinutes == None
  {
    assert PhoneKey != GameKey;
    assert PhoneKey !in map[GameKey := 30.0];
  }

  /** No name occurs twice: each name is absent from the names before it. */
  predicate Distinct(names: seq<string>)
  {
    names == [] || (names[|names| - 1] !in names[..|names| - 1] && Distinct(names[..|names| - 1]))
  }

  /** The insertion order of a dictionary after `d[name] = ...`: an existing key keeps
      its place, a new key goes last. */
  function Registered(order: seq<string>, name: string): (r: seq<string>)
    ensures forall c :: c in r <==> c in order || c == name
    ensures |order| <= |r| && r[..|order|] == order
    ensures Distinct(order) ==> Distinct(r)
  {
    if name in order then order else order + [name]
  }

  /** A distinct list of names has as many elements as the set of its names. */
  lemma {:induction false} DistinctCardinality(names: seq<string>)
    requires Distinct(names)
    ensures |set c | c in names| == |names|
  {
    if names != [] {
      var p := names[..|names| - 1];
      var last := names[|names| - 1];
      DistinctCardinality(p);
      assert names == p + [last];
      assert (set c | c in names) == (set c | c in p) + {last};
    }
  }

  /** The six columns `compare_conditions` keeps, in its fixed order. */
  datatype Metric = NoiseRatio | MeanDb | MaxDb | AvgStreakSeconds | FirstHourNoiseRatio | PhoneMinutes

  const KeyMetrics: seq<Metric> := [NoiseRatio, MeanDb, MaxDb, AvgStreakSeconds, FirstHourNoiseRatio, PhoneMinutes]

  /** Whether a condition's dictionary has the metric's key: every statistics record
      has the first five; the phone minutes only when they were attached. */
  predicate HasMetric(cs: ConditionStats, m: Metric)
  {
    m != PhoneMinutes || cs.phoneMinutes.Some?
  }

  /** The value in a condition's row; a missing key (or pandas' NaN) is None. */
  function MetricValue(cs: ConditionStats, m: Metric): Option<real>
  {
    match m
    case NoiseRatio => Some(cs.base.noiseRatio)
    case MeanDb => Some(cs.base.meanDb)
    case MaxDb => Some(cs.base.maxDb)
    case AvgStreakSeconds => Some(cs.base.avgStreakSeconds)
    case FirstHourNoiseRatio => cs.base.firstHourNoiseRatio
    case PhoneMinutes => cs.phoneMinutes
  }

  /** A missing column makes a None cell; the phone column is None exactly where the
      minutes were not attached. */
  lemma MetricValueOfMissing(cs: ConditionStats, m: Metric)
    ensures !HasMetric(cs, m) ==> MetricValue(cs, m) == None
    ensures m == PhoneMinutes ==> (MetricValue(cs, m).Some? <==> HasMetric(cs, m))
    ensures m !in {FirstHourNoiseRatio, PhoneMinutes} ==> MetricValue(cs, m).Some?
  {
  }

  /** Some registered condition has the metric's key, so the transposed frame has
      that column. */
  predicate ColumnPresent(order: seq<string>, stats: map<string, ConditionStats>, m: Metric)
    requires forall c :: c in order ==> c in stats
  {
    exists i :: 0 <= i < |order| && HasMetric(stats[order[i]], m)
  }

  /** `[m for m in key_metrics if m in comparison_df.columns]`: the metrics of `ms`
      present as columns, in the order of `ms`. */
  function Available(ms: seq<Metric>, order: seq<string>, stats: map<string, ConditionStats>): (r: seq<Metric>)
    requires forall c :: c in order ==> c in stats
    ensures forall m :: m in r <==> m in ms && ColumnPresent(order, stats, m)
    ensures |r| <= |ms|
  {
    if ms == [] then []
    else
      var p := Available(ms[..|ms| - 1], order, stats);
      var m := ms[|ms| - 1];
      assert forall x :: x in ms <==> x in ms[..|ms| - 1] || x == m by {
        assert ms == ms[..|ms| - 1] + [m];
      }
      if ColumnPresent(order, stats, m) then p + [m] else p
  }

  /** One row of the comparison table. */
  datatype Row = Row(condition: string, cells: seq<Option<real>>)

  /** The comparison table: its columns and one row per condition. */
  datatype Comparison = Comparison(columns: seq<Metric>, rows: seq<Row>)

  /** Whether some registered condition carries phone minutes. */
  predicate AnyPhone(order: seq<string>, stats: map<string, ConditionStats>)
    requires forall c :: c in order ==> c in stats
  {
    exists i :: 0 <= i < |order| && stats[order[i]].phoneMinutes.Some?
  }

  /** The values of a row, one per column. */
  function RowOf(cs: ConditionStats, columns: seq<Metric>): (r: seq<Option<real>>)
    ensures |r| == |columns|
    ensures forall j :: 0 <= j < |columns| ==> r[j] == MetricValue(cs, columns[j])
  {
    seq(|columns|, j requires 0 <= j < |columns| => MetricValue(cs, columns[j]))
  }

  /** The noise ratios of the named conditions, in the given order. */
  function NoiseRatios(names: seq<string>, stats: map<string, ConditionStats>): (r: seq<real>)
    requires forall c :: c in names ==> c in stats
    ensures |r| == |names|
    ensures forall i :: 0 <= i < |names| ==> r[i] == stats[names[i]].base.noiseRatio
  {
    if names == [] then []
    else NoiseRatios(names[..|names| - 1], stats) + [stats[names[|names| - 1]].base.noiseRatio]
  }

  /** The conditions that carry phone minutes, in registry order. */
  function PhoneConditions(names: seq<string>, stats: map<string, ConditionStats>): (r: seq<string>)
    requires forall c :: c in names ==> c in stats
    ensures forall c :: c in r <==> c in names && stats[c].phoneMinutes.Some?
    ensures |r| <= |names|
    ensures forall c :: c in r ==> c in stats
  {
    if names == [] then []
    else
      var p := PhoneConditions(names[..|names| - 1], stats);
      var c := names[|names| - 1];
      assert forall x :: x in names <==> x in names[..|names| - 1] || x == c by {
        assert names == names[..|names| - 1] + [c];
      }
      if stats[c].phoneMinutes.Some? then p + [c] else p
  }

  /** The `phone_times` list the loop of `test_hypothesis2` builds. */
  function PhoneTimes(names: seq<string>, stats: map<string, ConditionStats>): seq<real>
    requires forall c :: c in names ==> c in stats
  {
    if names == [] then []
    else
      var c := names[|names| - 1];
      PhoneTimes(names[..|names| - 1], stats)
      + (if stats[c].phoneMinutes.Some? then [stats[c].phoneMinutes.value] else [])
  }

  /** The `noise_ratios` list the loop of `test_hypothesis2` builds. */
  function PhoneNoiseRatios(names: seq<string>, stats: map<string, ConditionStats>): seq<real>
    requires forall c :: c in names ==> c in stats
  {
    if names == [] then []
    else
      var c := names[|names| - 1];
      PhoneNoiseRatios(names[..|names| - 1], stats)
      + (if stats[c].phoneMinutes.Some? then [stats[c].base.noiseRatio] else [])
  }

  /** The two lists of hypothesis 2 run in parallel: entry `k` of each belongs to the
      `k`-th condition with phone minutes, in registry order. */
  lemma {:induction false} PhoneListsAligned(names: seq<string>, stats: map<string, ConditionStats>)
    requires forall c :: c in names ==> c in stats
    ensures |PhoneTimes(names, stats)| == |PhoneConditions(names, stats)|
    ensures |PhoneNoiseRatios(names, stats)| == |PhoneConditions(names, stats)|
    ensures forall k :: 0 <= k < |PhoneConditions(names, stats)| ==>
      stats[PhoneConditions(names, stats)[k]].phoneMinutes.Some? &&
      PhoneTimes(names, stats)[k] == stats[PhoneConditions(names, stats)[k]].phoneMinutes.value &&
      PhoneNoiseRatios(names, stats)[k] == stats[PhoneConditions(names, stats)[k]].base.noiseRatio
  {
    if names != [] {
      var p := names[..|names| - 1];
      var c := names[|names| - 1];
      PhoneListsAligned(p, stats);
      if stats[c].phoneMinutes.Some? {
        assert PhoneConditions(names, stats) == PhoneConditions(p, stats) + [c];
        assert PhoneTimes(names, stats) == PhoneTimes(p, stats) + [stats[c].phoneMinutes.value];
        assert PhoneNoiseRatios(names, stats) == PhoneNoiseRatios(p, stats) + [stats[c].base.noiseRatio];
      } else {
        assert PhoneConditions(names, stats) == PhoneConditions(p, stats);
        assert PhoneTimes(names, stats) == PhoneTimes(p, stats);
        assert PhoneNoiseRatios(names, stats) == PhoneNoiseRatios(p, stats);
      }
    }
  }

  /** Outcome of hypothesis 2's A/B comparison. */
  datatype Verdict = Supported | Rejected

  /** The verdict as the result dictionary spells it. */
  function VerdictLabel(v: Verdict): (r: string)
    ensures r == "지지" <==> v == Supported
  {
    match v
    case Supported => "지지"
    case Rejected => "기각"
  }

  datatype Decision = Decision(noiseA: real, noiseB: real, difference: real, verdict: Verdict)

  function Abs(x: real): real
  {
    if x < 0.0 then -x else x
  }

  /** The A/B decision: the difference is B's noise ratio minus A's, and the hypothesis
      is supported exactly when that difference is at least the threshold in size. */
  function Decide(noiseA: real, noiseB: real, significanceThreshold: real): (d: Decision)
    ensures d.noiseA == noiseA && d.noiseB == noiseB
    ensures d.difference + noiseA == noiseB
    ensures d.verdict == Supported <==>
      (noiseB - noiseA >= significanceThreshold || noiseA - noiseB >= significanceThreshold)
  {
    var difference := noiseB - noiseA;
    Decision(noiseA, noiseB, difference, if Abs(difference) >= significanceThreshold then Supported else Rejected)
  }

  /** A 6.5-point rise supports the hypothesis at the default 5-point threshold; a
      3-point rise does not. */
  lemma DecideExamples()
    ensures Decide(2.0, 8.5, 5.0) == Decision(2.0, 8.5, 6.5, Supported)
    ensures Decide(2.0, 5.0, 5.0) == Decision(2.0, 5.0, 3.0, Rejected)
  {
  }

  /** Only the size of the difference matters: swapping A and B flips the sign of the
      difference and keeps the verdict. */
  lemma DecideSymmetric(a: real, b: real, t: real)
    ensures Decide(b, a, t).difference == -Decide(a, b, t).difference
    ensures Decide(b, a, t).verdict == Decide(a, b, t).verdict
  {
  }

  /** Lowering the threshold never turns support into rejection. */
  lemma DecideThresholdMonotone(a: real, b: real, low: real, high: real)
    requires low <= high
    ensures Decide(a, b, high).verdict == Supported ==> Decide(a, b, low).verdict == Supported
  {
  }

  /** Result of hypothesis 1: each condition's noise ratio and their average (NaN,
      here None, when no condition is registered). */
  datatype Hypothesis1 = Hypothesis1(perCondition: map<string, real>, averageNoiseRatio: Option<real>)

  /** Result of hypothesis 2: the two data lists, whether the correlation fields are
      present, and the A/B decision when both conditions are registered. */
  datatype Hypothesis2 = Hypothesis2(phoneTimes: seq<real>, noiseRatios: seq<real>,
                                     correlationComputed: bool, decision: Option<Decision>)

  /** The three calls `analyze_condition` makes on a fresh analyzer: load the night,
      preprocess it with the default window, compute its statistics. */
  method RunAnalyzer(thresholdDb: real, db: seq<real>, times: Option<seq<Option<real>>>)
      returns (analyzer: SleepAnalyzer, st: Stats)
    requires |db| > 0 && (times.Some? ==> |times.value| == |db|)
    ensures fresh(analyzer) && analyzer.stats == Some(st)
    ensures st == StatsOf(db, NoiseFlags(db, thresholdDb), RemFlags(db), InferInterval(times))
    ensures 0.0 <= st.noiseRatio <= 100.0
  {
    analyzer := new SleepAnalyzer(thresholdDb);
    analyzer.LoadData(db, times);
    analyzer.PreprocessData(DefaultWindow);
    ghost var annotations := Annotate(db, thresholdDb, DefaultWindow);
    assert annotations.isNoise == NoiseFlags(db, thresholdDb) && annotations.isRem == RemFlags(db);
    assert analyzer.data == Some(Frame(db, Some(annotations)));
    var statsResult := analyzer.CalculateStatistics();
    st := statsResult.value;
    PipelineNoiseRatio(db, thresholdDb, InferInterval(times));
  }

  /** The registry's invariant: the order lists each registered condition once, both
      dictionaries have the same keys, and every stored noise ratio is a percentage. */
  ghost predicate Registry<A>(order: seq<string>, stats: map<string, ConditionStats>, results: map<string, A>)
  {
    Distinct(order) &&
    (forall c :: c in stats <==> c in order) &&
    (forall c :: c in results <==> c in order) &&
    (forall c :: c in stats ==> 0.0 <= stats[c].base.noiseRatio <= 100.0)
  }

  /** Storing a record with a percentage noise ratio keeps the invariant. */
  lemma RegistryStore<A>(order: seq<string>, stats: map<string, ConditionStats>, results: map<string, A>,
                         name: string, r: ConditionStats, a: A)
    requires Registry(order, stats, results) && 0.0 <= r.base.noiseRatio <= 100.0
    ensures Registry(Registered(order, name), stats[name := r], results[name := a])
  {
  }

  class HypothesisTest {
    var thresholdDb: real
    /** Insertion order of the registry's keys. */
    var order: seq<string>
    var conditionStats: map<string, ConditionStats>
    var results: map<string, SleepAnalyzer>

    /** The registry invariant over the three fields. */
    ghost predicate Valid()
      reads this
    {
      Registry(order, conditionStats, results)
    }

    constructor(thresholdDb: real)
      ensures Valid()
      ensures this.thresholdDb == thresholdDb
      ensures order == [] && conditionStats == map[] && results == map[]
    {
      this.thresholdDb := thresholdDb;
      order := [];
      conditionStats := map[];
      results := map[];
    }

    /** Under the invariant the registry holds as many conditions as the order lists. */
    lemma RegistrySize()
      requires Valid()
      ensures |conditionStats| == |order|
    {
      DistinctCardinality(order);
      assert conditionStats.Keys == set c | c in order;
    }

    /** `analyze_condition` once the condition's file is read: a fresh analyzer at the
        registry's threshold loads, preprocesses (default window) and computes the
        statistics; the experiment minutes are attached and the record is stored under
        the condition's name, replacing an earlier one and leaving the others as they
        were. */
    method AnalyzeCondition(name: string, db: seq<real>, times: Option<seq<Option<real>>>,
                            experimentInfo: Option<map<string, real>>) returns (r: ConditionStats)
      requires Valid()
      requires |db| > 0 && (times.Some? ==> |times.value| == |db|)
      modifies this
      ensures Valid()
      ensures r == Attach(StatsOf(db, NoiseFlags(db, thresholdDb), RemFlags(db), InferInterval(times)),
                          experimentInfo)
      ensures conditionStats == old(conditionStats)[name := r]
      ensures order == Registered(old(order), name)
      ensures name in results && fresh(results[name])
      ensures results[name].stats == Some(r.base)
      ensures results == old(results)[name := results[name]]
      ensures thresholdDb == old(thresholdDb)
    {
      var analyzer, statsResult := RunAnalyzer(thresholdDb, db, times);
      r := Attach(statsResult, experimentInfo);
      Store(name, r, analyzer);
      assert results[name] == analyzer;
    }

    /** Storing a condition's record and analyzer under its name. */
    method Store(name: string, r: ConditionStats, analyzer: SleepAnalyzer)
      requires Valid() && 0.0 <= r.base.noiseRatio <= 100.0
      modifies this
      ensures Valid()
      ensures conditionStats == old(conditionStats)[name := r]
      ensures order == Registered(old(order), name)
      ensures results == old(results)[name := analyzer]
      ensures thresholdDb == old(thresholdDb)
      ensures analyzer.stats == old(analyzer.stats)
    {
      var newOrder := Registered(order, name);
      RegistryStore(order, conditionStats, results, name, r, analyzer);
      conditionStats := conditionStats[name := r];
      results := results[name := analyzer];
      order := newOrder;
    }

    /** `compare_conditions`: no table with fewer than two conditions; otherwise one row
        per condition in registry order, and as columns the first five key metrics,
        followed by the phone minutes when some condition carries them. */
    function CompareConditions(): (r: Option<Comparison>)
      reads this
      requires Valid()
      ensures r.None? <==> |order| < 2
      ensures r.Some? ==>
        r.value.columns == [NoiseRatio, MeanDb, MaxDb, AvgStreakSeconds, FirstHourNoiseRatio]
          + (if AnyPhone(order, conditionStats) then [PhoneMinutes] else [])
      ensures r.Some? ==>
        |r.value.rows| == |order| &&
        forall i :: 0 <= i < |order| ==>
          r.value.rows[i].condition == order[i] &&
          r.value.rows[i].cells == RowOf(conditionStats[order[i]], r.value.columns)
    {
      if |order| < 2 then None
      else
        var columns := Available(KeyMetrics, order, conditionStats);
        assert columns == [NoiseRatio, MeanDb, MaxDb, AvgStreakSeconds, FirstHourNoiseRatio]
          + (if AnyPhone(order, conditionStats) then [PhoneMinutes] else []) by {
          AvailableKeyMetrics(order, conditionStats);
        }
        var names, stats := order, conditionStats;
        Some(Comparison(columns, seq(|names|, i requires 0 <= i < |names| =>
          Row(names[i], RowOf(stats[names[i]], columns)))))
    }

    /** `test_hypothesis1`: one pass over the registry collecting each condition's noise
        ratio, then their mean. */
    method TestHypothesis1() returns (r: Hypothesis1)
      requires Valid()
      ensures forall c :: c in r.perCondition <==> c in conditionStats
      ensures forall c :: c in r.perCondition ==> r.perCondition[c] == conditionStats[c].base.noiseRatio
      ensures r.averageNoiseRatio ==
        (if |order| == 0 then None else Some(Mean(NoiseRatios(order, conditionStats))))
    {
      var perCondition: map<string, real> := map[];
      var ratios: seq<real> := [];
      for i := 0 to |order|
        invariant forall j :: 0 <= j < i ==> order[j] in perCondition
        invariant forall c :: c in perCondition ==>
          c in conditionStats && perCondition[c] == conditionStats[c].base.noiseRatio
        invariant ratios == NoiseRatios(order[..i], conditionStats)
      {
        assert order[..i + 1][..i] == order[..i];
        var noiseRatio := conditionStats[order[i]].base.noiseRatio;
        ghost var before := perCondition;
        perCondition := perCondition[order[i] := noiseRatio];
        assert forall c :: c in before ==> c in perCondition;
        ratios := ratios + [noiseRatio];
      }
      assert order[..|order|] == order;
      forall c | c in conditionStats ensures c in perCondition {
        var j :| 0 <= j < |order| && order[j] == c;
      }
      var average: Option<real> := None;
      if |ratios| > 0 {
        average := Some(Mean(ratios));
      }
      r := Hypothesis1(perCondition, average);
    }

    /** `test_hypothesis2` without the correlation itself: one pass collecting phone
        minutes and noise ratios of the conditions that carry phone minutes, the
        correlation gate, and the A/B decision. */
    method TestHypothesis2(significanceThreshold: real) returns (r: Hypothesis2)
      requires Valid()
      ensures r.phoneTimes == PhoneTimes(order, conditionStats)
      ensures r.noiseRatios == PhoneNoiseRatios(order, conditionStats)
      ensures r.correlationComputed <==> |r.phoneTimes| >= 2
      ensures r.decision ==
        (if "A" in conditionStats && "B" in conditionStats
         then Some(Decide(conditionStats["A"].base.noiseRatio, conditionStats["B"].base.noiseRatio,
                          significanceThreshold))
         else None)
    {
      var phoneTimes: seq<real> := [];
      var noiseRatios: seq<real> := [];
      for i := 0 to |order|
        invariant phoneTimes == PhoneTimes(order[..i], conditionStats)
        invariant noiseRatios == PhoneNoiseRatios(order[..i], conditionStats)
      {
        assert order[..i + 1][..i] == order[..i];
        var st := conditionStats[order[i]];
        if st.phoneMinutes.Some? {
          phoneTimes := phoneTimes + [st.phoneMinutes.value];
          noiseRatios := noiseRatios + [st.base.noiseRatio];
        }
      }
      assert order[..|order|] == order;
      var decision: Option<Decision> := None;
      if "A" in conditionStats && "B" in conditionStats {
        decision := Some(Decide(conditionStats["A"].base.noiseRatio, conditionStats["B"].base.noiseRatio,
                                significanceThreshold));
      }
      r := Hypothesis2(phoneTimes, noiseRatios, |phoneTimes| >= 2, decision);
    }
  }

  /** With every condition's statistics present, the available key metrics are the five
      that every record has, then the phone minutes if some condition carries them. */
  lemma AvailableKeyMetrics(order: seq<string>, stats: map<string, ConditionStats>)
    requires |order| > 0 && forall c :: c in order ==> c in stats
    ensures Available(KeyMetrics, order, stats) ==
      [NoiseRatio, MeanDb, MaxDb, AvgStreakSeconds, FirstHourNoiseRatio]
      + (if AnyPhone(order, stats) then [PhoneMinutes] else [])
  {
    forall m | m != PhoneMinutes ensures ColumnPresent(order, stats, m) {
      assert HasMetric(stats[order[0]], m);
    }
    assert ColumnPresent(order, stats, PhoneMinutes) == AnyPhone(order, stats);
    assert KeyMetrics[..5] == [NoiseRatio, MeanDb, MaxDb, AvgStreakSeconds, FirstHourNoiseRatio];
    assert KeyMetrics[..6] == KeyMetrics;
    assert Available(KeyMetrics[..5], order, stats) == KeyMetrics[..5] by {
      AvailableAllPresent(KeyMetrics[..5], order, stats);
    }
  }

  /** Metrics that are all present as columns are all available, in their order. */
  lemma {:induction false} AvailableAllPresent(ms: seq<Metric>, order: seq<string>, stats: map<string, ConditionStats>)
    requires forall c :: c in order ==> c in stats
    requires forall i :: 0 <= i < |ms| ==> ColumnPresent(order, stats, ms[i])
    ensures Available(ms, order, stats) == ms
  {
    if ms != [] {
      var p := ms[..|ms| - 1];
      AvailableAllPresent(p, order, stats);
      assert ms == p + [ms[|ms| - 1]];
    }
  }

  /** The average noise ratio of hypothesis 1 lies between the smallest and the largest
      condition's ratio, and so is itself a percentage. */
  lemma Hypothesis1AverageBounds(order: seq<string>, stats: map<string, ConditionStats>)
    requires |order| > 0 && forall c :: c in order ==> c in stats
    requires forall c :: c in stats ==> 0.0 <= stats[c].base.noiseRatio <= 100.0
    ensures var ratios := NoiseRatios(order, stats);
      Min(ratios) <= Mean(ratios) <= Max(ratios) && 0.0 <= Mean(ratios) <= 100.0
  {
    var ratios := NoiseRatios(order, stats);
    MeanBetweenMinAndMax(ratios);
    MeanBounds(ratios, 0.0, 100.0);
  }

  /** The phone data holds exactly one entry per condition carrying phone minutes, so the
      correlation is computed exactly when at least two conditions carry them. */
  lemma PhoneDataLength(order: seq<string>, stats: map<string, ConditionStats>)
    requires forall c :: c in order ==> c in stats
    ensures |PhoneTimes(order, stats)| == |PhoneNoiseRatios(order, stats)| == |PhoneConditions(order, stats)|
    ensures |PhoneTimes(order, stats)| <= |order|
  {
    PhoneListsAligned(order, stats);
  }
}
