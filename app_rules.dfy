/** The decision rules of the Streamlit app: the verdict shown for a night's noise
    ratio, the overall sleep-quality grade, the best and worst hour of the night, the
    REM spans shaded on the main graph, and the interpretation line of the report. */
module AppRules {
  import opened Common
  import opened Streaks
  import opened Preprocessing
  import opened Statistics
  import opened Analyzer

  // ---------------------------------------------------------------------------
  // Interpretation of the noise ratio
  // ---------------------------------------------------------------------------

  /** The four verdicts of the analysis page, best first. */
  datatype Verdict = VeryGood | Good | Caution | NeedsImprovement

  /** Position of a verdict, 0 for the best. */
  function VerdictRank(v: Verdict): nat
  {
    match v
    case VeryGood => 0
    case Good => 1
    case Caution => 2
    case NeedsImprovement => 3
  }

  /** The verdict for a noise ratio (in percent): under 1 very good, under 3 good,
      under 5 caution, otherwise needs improvement. */
  function NoiseInterpretation(noiseRatio: real): (v: Verdict)
  {
    if noiseRatio < 1.0 then VeryGood
    else if noiseRatio < 3.0 then Good
    else if noiseRatio < 5.0 then Caution
    else NeedsImprovement
  }

  /** Each verdict covers one band of ratios, and the bands meet without gaps. */
  lemma NoiseInterpretationBands(noiseRatio: real)
    ensures NoiseInterpretation(noiseRatio) == VeryGood <==> noiseRatio < 1.0
    ensures NoiseInterpretation(noiseRatio) == Good <==> 1.0 <= noiseRatio < 3.0
    ensures NoiseInterpretation(noiseRatio) == Caution <==> 3.0 <= noiseRatio < 5.0
    ensures NoiseInterpretation(noiseRatio) == NeedsImprovement <==> 5.0 <= noiseRatio
  {
  }

  /** More noise never earns a better verdict. */
  lemma NoiseInterpretationMonotone(a: real, b: real)
    requires a <= b
    ensures VerdictRank(NoiseInterpretation(a)) <= VerdictRank(NoiseInterpretation(b))
  {
  }

  /** A night whose every sample stays under the threshold is rated very good, and one
      that never drops below it needs improvement. */
  lemma QuietNightIsVeryGood(db: seq<real>, thresholdDb: real, interval: real)
    requires |db| > 0 && interval > 0.0
    ensures var st := StatsOf(db, NoiseFlags(db, thresholdDb), RemFlags(db), interval);
      ((forall i :: 0 <= i < |db| ==> db[i] < thresholdDb) ==> NoiseInterpretation(st.noiseRatio) == VeryGood) &&
      ((forall i :: 0 <= i < |db| ==> db[i] >= thresholdDb) ==> NoiseInterpretation(st.noiseRatio) == NeedsImprovement)
  {
    PipelineNoiseRatio(db, thresholdDb, interval);
  }

  // ---------------------------------------------------------------------------
  // The report's interpretation line
  // ---------------------------------------------------------------------------

  /** The three interpretation lines of the downloadable report. */
  datatype ReportNote = Stable | WithinNormal | RatherHigh

  /** The report line for a noise ratio: under 1 stable, under 3 within the normal
      range, otherwise rather high. */
  function ReportInterpretation(noiseRatio: real): (n: ReportNote)
  {
    if noiseRatio < 1.0 then Stable
    else if noiseRatio < 3.0 then WithinNormal
    else RatherHigh
  }

  /** The report agrees with the analysis page: it merges the page's two worst
      verdicts into one line and keeps the other two. */
  lemma ReportAgreesWithVerdict(noiseRatio: real)
    ensures ReportInterpretation(noiseRatio) == Stable <==> NoiseInterpretation(noiseRatio) == VeryGood
    ensures ReportInterpretation(noiseRatio) == WithinNormal <==> NoiseInterpretation(noiseRatio) == Good
    ensures ReportInterpretation(noiseRatio) == RatherHigh <==>
      NoiseInterpretation(noiseRatio) == Caution || NoiseInterpretation(noiseRatio) == NeedsImprovement
  {
  }

  // ---------------------------------------------------------------------------
  // Overall sleep quality
  // ---------------------------------------------------------------------------

  /** The four grades of the overall assessment. */
  datatype Quality = Excellent | GoodQuality | Fair | NeedsWork

  /** Position of a grade, 0 for the worst. */
  function QualityRank(q: Quality): nat
  {
    match q
    case NeedsWork => 0
    case Fair => 1
    case GoodQuality => 2
    case Excellent => 3
  }

  /** The overall grade from the deep-sleep and restless shares (in percent): deep sleep
      over 50 is excellent and over 30 good; otherwise restlessness over 30 needs work,
      and anything else is fair. */
  function OverallQuality(deepPct: real, restlessPct: real): (q: Quality)
  {
    if deepPct > 50.0 then Excellent
    else if deepPct > 30.0 then GoodQuality
    else if restlessPct > 30.0 then NeedsWork
    else Fair
  }

  /** Deep sleep decides alone above 30%; restlessness only matters below. */
  lemma OverallQualityCases(deepPct: real, restlessPct: real)
    ensures OverallQuality(deepPct, restlessPct) == Excellent <==> deepPct > 50.0
    ensures OverallQuality(deepPct, restlessPct) == GoodQuality <==> 30.0 < deepPct <= 50.0
    ensures OverallQuality(deepPct, restlessPct) == NeedsWork <==> deepPct <= 30.0 && restlessPct > 30.0
    ensures OverallQuality(deepPct, restlessPct) == Fair <==> deepPct <= 30.0 && restlessPct <= 30.0
  {
  }

  /** More deep sleep never lowers the grade, and more restlessness never raises it. */
  lemma OverallQualityMonotone(deep1: real, restless1: real, deep2: real, restless2: real)
    requires deep1 <= deep2 && restless2 <= restless1
    ensures QualityRank(OverallQuality(deep1, restless1)) <= QualityRank(OverallQuality(deep2, restless2))
  {
  }

  // ---------------------------------------------------------------------------
  // Best and worst hour
  // ---------------------------------------------------------------------------

  /** Index of the entry with the largest key, the first one on a tie, as Python's
      `max(..., key=...)` returns it. */
  function FirstArgMax(hs: seq<HourBucket>, key: HourBucket -> real): (i: nat)
    requires |hs| > 0
    ensures i < |hs|
    ensures forall j :: 0 <= j < |hs| ==> key(hs[j]) <= key(hs[i])
    ensures forall j :: 0 <= j < i ==> key(hs[j]) < key(hs[i])
  {
    if |hs| == 1 then 0
    else
      var k := FirstArgMax(hs[..|hs| - 1], key);
      if key(hs[|hs| - 1]) > key(hs[k]) then |hs| - 1 else k
  }

  /** The first maximum is the only index with both properties. */
  lemma FirstArgMaxUnique(hs: seq<HourBucket>, key: HourBucket -> real, i: nat)
    requires i < |hs|
    requires forall j :: 0 <= j < |hs| ==> key(hs[j]) <= key(hs[i])
    requires forall j :: 0 <= j < i ==> key(hs[j]) < key(hs[i])
    ensures FirstArgMax(hs, key) == i
  {
  }

  /** The keys of the two `max` calls. */
  function DeepShare(b: HourBucket): real { b.deepPct }
  function RestlessShare(b: HourBucket): real { b.restlessPct }

  /** The hour with the largest deep-sleep share ("slept most soundly"); the app
      raises an error on an empty hourly list, modelled as None. */
  function BestHour(hourly: seq<HourBucket>): (r: Option<HourBucket>)
    ensures r.None? <==> hourly == []
    ensures r.Some? ==> r.value in hourly
    ensures r.Some? ==> forall j :: 0 <= j < |hourly| ==> hourly[j].deepPct <= r.value.deepPct
  {
    if hourly == [] then None else Some(hourly[FirstArgMax(hourly, DeepShare)])
  }

  /** The hour with the largest restless share ("sleep was unsettled"); None on an empty
      hourly list. */
  function WorstHour(hourly: seq<HourBucket>): (r: Option<HourBucket>)
    ensures r.None? <==> hourly == []
    ensures r.Some? ==> r.value in hourly
    ensures r.Some? ==> forall j :: 0 <= j < |hourly| ==> hourly[j].restlessPct <= r.value.restlessPct
  {
    if hourly == [] then None else Some(hourly[FirstArgMax(hourly, RestlessShare)])
  }

  /** On a tie the earliest hour wins: no hour before the chosen one has as large a
      share. */
  lemma BestAndWorstHourAreEarliest(hourly: seq<HourBucket>)
    requires hourly != []
    ensures forall j :: 0 <= j < FirstArgMax(hourly, DeepShare) ==>
      hourly[j].deepPct < BestHour(hourly).value.deepPct
    ensures forall j :: 0 <= j < FirstArgMax(hourly, RestlessShare) ==>
      hourly[j].restlessPct < WorstHour(hourly).value.restlessPct
  {
    var i := FirstArgMax(hourly, DeepShare);
    var k := FirstArgMax(hourly, RestlessShare);
    forall j | 0 <= j < i ensures hourly[j].deepPct < BestHour(hourly).value.deepPct {
      assert DeepShare(hourly[j]) < DeepShare(hourly[i]);
    }
    forall j | 0 <= j < k ensures hourly[j].restlessPct < WorstHour(hourly).value.restlessPct {
      assert RestlessShare(hourly[j]) < RestlessShare(hourly[k]);
    }
  }

  // ---------------------------------------------------------------------------
  // REM spans on the main graph
  // ---------------------------------------------------------------------------

  /** A shaded span: the indices of its first and last REM sample; the graph draws it
      from the elapsed hour of the first to that of the last. */
  datatype Span = Span(first: nat, last: nat)

  /** The spans closed by a non-REM sample, in order. */
  function ClosedSpans(f: seq<bool>): seq<Span>
  {
    if f == [] then []
    else
      var p := f[..|f| - 1];
      if f[|f| - 1] || TrailingRun(p) == 0 then ClosedSpans(p)
      else ClosedSpans(p) + [Span(|p| - TrailingRun(p), |p| - 1)]
  }

  /** Every span, in order: the closed ones and a span still open at the last sample. */
  function RemSpansOf(f: seq<bool>): seq<Span>
  {
    ClosedSpans(f) + (if TrailingRun(f) > 0 then [Span(|f| - TrailingRun(f), |f| - 1)] else [])
  }

  /** The REM-shading loop of the graph page: a span opens at a REM sample after a
      non-REM one, closes at the sample before the next non-REM one, and a span still
      open after the loop closes at the last sample. */
  method RemSpans(isRem: seq<bool>) returns (spans: seq<Span>)
    ensures spans == RemSpansOf(isRem)
  {
    spans := [];
    var inRem := false;
    var remStart: nat := 0;
    for i := 0 to |isRem|
      invariant spans == ClosedSpans(isRem[..i])
      invariant inRem <==> TrailingRun(isRem[..i]) > 0
      invariant inRem ==> remStart == i - TrailingRun(isRem[..i])
    {
      assert isRem[..i + 1][..i] == isRem[..i];
      if isRem[i] && !inRem {
        remStart := i;
        inRem := true;
      } else if !isRem[i] && inRem {
        spans := spans + [Span(remStart, i - 1)];
        inRem := false;
      }
    }
    assert isRem[..|isRem|] == isRem;
    if inRem {
      spans := spans + [Span(remStart, |isRem| - 1)];
    }
  }

  /** The stretch of the time axis a span shades, in elapsed hours: from its first
      sample to its last, so a span of one sample has no width. */
  function SpanHours(s: Span, interval: real): (r: (real, real))
    requires interval > 0.0 && s.first <= s.last
    ensures 0.0 <= r.0 <= r.1
    ensures r.1 - r.0 == (SpanLength(s) - 1) as real * interval / 3600.0
  {
    var lo, hi := ElapsedHours(s.first, interval), ElapsedHours(s.last, interval);
    assert hi - lo == (s.last - s.first) as real * interval / 3600.0;
    (lo, hi)
  }

  /** `s` is a maximal run of REM samples: all its samples are REM and neither
      neighbour is. */
  predicate MaximalRun(f: seq<bool>, s: Span)
  {
    s.first <= s.last < |f| &&
    (forall i :: s.first <= i <= s.last ==> f[i]) &&
    (s.first == 0 || !f[s.first - 1]) &&
    (s.last == |f| - 1 || !f[s.last + 1])
  }

  /** Consecutive spans are apart by at least one non-REM sample. */
  predicate Separated(spans: seq<Span>)
  {
    forall k :: 0 <= k < |spans| - 1 ==> spans[k].last + 1 < spans[k + 1].first
  }

  /** Sample `i` lies in one of the spans. */
  predicate Covered(spans: seq<Span>, i: nat)
  {
    exists k :: 0 <= k < |spans| && spans[k].first <= i <= spans[k].last
  }

  /** The shaded spans are exactly the maximal REM runs: each one is a maximal run,
      they appear in order with gaps between them, and every REM sample is shaded. */
  lemma RemSpansAreMaximalRuns(f: seq<bool>)
    ensures forall k :: 0 <= k < |RemSpansOf(f)| ==> MaximalRun(f, RemSpansOf(f)[k])
    ensures Separated(RemSpansOf(f))
    ensures forall i :: 0 <= i < |f| && f[i] ==> Covered(RemSpansOf(f), i)
  {
    var c := ClosedSpans(f);
    var t := TrailingRun(f);
    ClosedSpansMaximal(f);
    ClosedSpansSeparated(f);
    ClosedSpansCover(f);
    if t > 0 {
      TrailingRunFacts(f);
      var s := Span(|f| - t, |f| - 1);
      var all := c + [s];
      assert MaximalRun(f, s);
      forall i | 0 <= i < |f| && f[i] ensures Covered(all, i) {
        if i < |f| - t {
          var k :| 0 <= k < |c| && c[k].first <= i <= c[k].last;
          assert all[k] == c[k];
        } else {
          assert all[|c|] == s;
        }
      }
    } else {
      assert RemSpansOf(f) == c;
    }
  }

  /** The run at the end of `f` is all REM and starts after a non-REM sample or at
      the beginning. */
  lemma {:induction false} TrailingRunFacts(f: seq<bool>)
    ensures forall i :: |f| - TrailingRun(f) <= i < |f| ==> f[i]
    ensures TrailingRun(f) == |f| || !f[|f| - TrailingRun(f) - 1]
  {
    if f != [] && f[|f| - 1] {
      var p := f[..|f| - 1];
      TrailingRunFacts(p);
      assert TrailingRun(f) == TrailingRun(p) + 1;
      forall i | |f| - TrailingRun(f) <= i < |f|
        ensures f[i]
      {
        if i < |p| {
          assert f[i] == p[i];
        }
      }
      if TrailingRun(p) < |p| {
        assert f[|p| - TrailingRun(p) - 1] == p[|p| - TrailingRun(p) - 1];
      }
    }
  }

  /** A maximal run that ends before the last sample stays maximal when a sample is
      appended. */
  lemma MaximalRunExtend(p: seq<bool>, x: bool, s: Span)
    requires MaximalRun(p, s) && s.last + 1 < |p|
    ensures MaximalRun(p + [x], s)
  {
    var f := p + [x];
    assert forall i :: 0 <= i < |p| ==> f[i] == p[i];
  }

  /** Induction behind the characterisation: the closed spans are maximal runs that
      end before the trailing run. */
  lemma {:induction false} ClosedSpansMaximal(f: seq<bool>)
    ensures forall k :: 0 <= k < |ClosedSpans(f)| ==>
      MaximalRun(f, ClosedSpans(f)[k]) && ClosedSpans(f)[k].last + 1 < |f| - TrailingRun(f)
  {
    if f != [] {
      var p, x := f[..|f| - 1], f[|f| - 1];
      var cp, tp := ClosedSpans(p), TrailingRun(p);
      ClosedSpansMaximal(p);
      assert f == p + [x];
      forall k | 0 <= k < |cp| ensures MaximalRun(f, cp[k]) {
        MaximalRunExtend(p, x, cp[k]);
      }
      if !x && tp > 0 {
        var s := Span(|p| - tp, |p| - 1);
        assert MaximalRun(f, s) by {
          TrailingRunFacts(p);
          assert forall i :: 0 <= i < |p| ==> f[i] == p[i];
        }
        assert forall k :: 0 <= k < |cp| ==> ClosedSpans(f)[k] == cp[k];
        assert ClosedSpans(f)[|cp|] == s;
      }
    }
  }

  /** The closed spans are in order, with a gap between neighbours. */
  lemma {:induction false} ClosedSpansSeparated(f: seq<bool>)
    ensures Separated(ClosedSpans(f))
  {
    if f != [] {
      var p := f[..|f| - 1];
      ClosedSpansSeparated(p);
      ClosedSpansMaximal(p);
    }
  }

  /** Every REM sample before the trailing run lies in a closed span. */
  lemma {:induction false} ClosedSpansCover(f: seq<bool>)
    ensures forall i :: 0 <= i < |f| - TrailingRun(f) && f[i] ==> Covered(ClosedSpans(f), i)
  {
    if f != [] {
      var p, x := f[..|f| - 1], f[|f| - 1];
      var cp, tp := ClosedSpans(p), TrailingRun(p);
      ClosedSpansCover(p);
      if x || tp == 0 {
        forall i | 0 <= i < |f| - TrailingRun(f) && f[i] ensures Covered(cp, i) {
          assert f[i] == p[i];
        }
      } else {
        var s := Span(|p| - tp, |p| - 1);
        var c := cp + [s];
        forall i | 0 <= i < |f| && f[i] ensures Covered(c, i) {
          if i < |p| - tp {
            assert f[i] == p[i];
            var k :| 0 <= k < |cp| && cp[k].first <= i <= cp[k].last;
            assert c[k] == cp[k];
          } else {
            assert c[|cp|] == s;
          }
        }
      }
    }
  }

  /** Number of samples in a span. */
  function SpanLength(s: Span): nat
  {
    if s.last < s.first then 0 else s.last - s.first + 1
  }

  function SpanLengths(spans: seq<Span>): (r: seq<nat>)
    ensures |r| == |spans|
    ensures forall k :: 0 <= k < |spans| ==> r[k] == SpanLength(spans[k])
  {
    if spans == [] then [] else SpanLengths(spans[..|spans| - 1]) + [SpanLength(spans[|spans| - 1])]
  }

  /** The graph shades the same runs the statistics count as streaks: read over the
      REM column, the span lengths are the streak lengths of `calculate_statistics`. */
  lemma RemSpanLengthsAreStreaks(f: seq<bool>)
    ensures SpanLengths(RemSpansOf(f)) == NoiseRuns(f)
  {
    ClosedSpanLengths(f);
  }

  lemma {:induction false} ClosedSpanLengths(f: seq<bool>)
    ensures SpanLengths(ClosedSpans(f)) == ClosedRuns(f)
  {
    if f != [] {
      ClosedSpanLengths(f[..|f| - 1]);
    }
  }
}
