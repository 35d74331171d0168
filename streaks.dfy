/** Run-length analysis of the `is_noise` column in `calculate_statistics`: the
    lengths of the maximal runs of consecutive noise samples ("streaks"), and the
    average and longest streak converted to seconds. */
module Streaks {
  import opened Common

  /** Length of the run of noise samples at the end of `f` (the loop's `current_streak`). */
  function TrailingRun(f: seq<bool>): (r: nat)
    ensures r <= |f|
  {
    if f == [] || !f[|f| - 1] then 0 else TrailingRun(f[..|f| - 1]) + 1
  }

  /** The runs of `f` already ended by a quiet sample (the loop's `consecutive_noise`). */
  function ClosedRuns(f: seq<bool>): seq<nat>
  {
    if f == [] then []
    else
      var p := f[..|f| - 1];
      if f[|f| - 1] || TrailingRun(p) == 0 then ClosedRuns(p)
      else ClosedRuns(p) + [TrailingRun(p)]
  }

  /** All streaks of `f`, in order: the closed runs and a run still open at the end. */
  function NoiseRuns(f: seq<bool>): seq<nat>
  {
    ClosedRuns(f) + (if TrailingRun(f) > 0 then [TrailingRun(f)] else [])
  }

  /** The streak loop of `calculate_statistics`: one pass that extends the current
      streak on a noise sample, records and resets it on a quiet one, and records a
      streak still open after the last sample. */
  method NoiseStreaks(isNoise: seq<bool>) returns (consecutive: seq<nat>)
    ensures consecutive == NoiseRuns(isNoise)
  {
    consecutive := [];
    var current: nat := 0;
    for i := 0 to |isNoise|
      invariant consecutive == ClosedRuns(isNoise[..i])
      invariant current == TrailingRun(isNoise[..i])
    {
      assert isNoise[..i + 1][..i] == isNoise[..i];
      if isNoise[i] {
        current := current + 1;
      } else {
        if current > 0 {
          consecutive := consecutive + [current];
        }
        current := 0;
      }
    }
    assert isNoise[..|isNoise|] == isNoise;
    if current > 0 {
      consecutive := consecutive + [current];
    }
  }

  /** Sum of a list of streak lengths. */
  function SumNat(s: seq<nat>): nat
  {
    if s == [] then 0 else SumNat(s[..|s| - 1]) + s[|s| - 1]
  }

  /** `max(consecutive_noise)` of a non-empty list. This is `Common.Max` over whole
      numbers: the streak lengths are counts, and the bounds on their sum
      (`SumNatAtMost`) are stated in `nat`. */
  function MaxNat(s: seq<nat>): (r: nat)
    requires |s| > 0
    ensures forall i :: 0 <= i < |s| ==> s[i] <= r
    ensures exists i :: 0 <= i < |s| && s[i] == r
  {
    if |s| == 1 then s[0]
    else
      var m := MaxNat(s[..|s| - 1]);
      if s[|s| - 1] > m then s[|s| - 1] else m
  }

  lemma SumNatAppend(s: seq<nat>, x: nat)
    ensures SumNat(s + [x]) == SumNat(s) + x
  {
    assert (s + [x])[..|s|] == s;
  }

  /** Loop facts: every closed run is at least one sample long, the closed runs and
      the open run together hold every noise sample, and each closed run used up at
      least one quiet sample after it. */
  lemma {:induction false} ClosedRunsFacts(f: seq<bool>)
    ensures forall k :: 0 <= k < |ClosedRuns(f)| ==> ClosedRuns(f)[k] >= 1
    ensures SumNat(ClosedRuns(f)) + TrailingRun(f) == CountTrue(f)
    ensures 2 * |ClosedRuns(f)| + TrailingRun(f) <= |f|
  {
    if f != [] {
      var p := f[..|f| - 1];
      ClosedRunsFacts(p);
      if !f[|f| - 1] && TrailingRun(p) > 0 {
        SumNatAppend(ClosedRuns(p), TrailingRun(p));
      }
    }
  }

  /** Every recorded streak is at least one sample long; the streaks hold exactly the
      noise samples; and since streaks are separated by quiet samples there are at
      most `(n + 1) / 2` of them, in particular no more than there are samples. */
  lemma NoiseRunsFacts(f: seq<bool>)
    ensures forall k :: 0 <= k < |NoiseRuns(f)| ==> NoiseRuns(f)[k] >= 1
    ensures SumNat(NoiseRuns(f)) == CountTrue(f)
    ensures 2 * |NoiseRuns(f)| <= |f| + 1
    ensures |NoiseRuns(f)| <= |f|
  {
    ClosedRunsFacts(f);
    if TrailingRun(f) > 0 {
      SumNatAppend(ClosedRuns(f), TrailingRun(f));
    } else {
      assert NoiseRuns(f) == ClosedRuns(f);
    }
  }

  /** A noise-free night has no streaks. */
  lemma {:induction false} NoiseRunsAllQuiet(f: seq<bool>)
    requires forall i :: 0 <= i < |f| ==> !f[i]
    ensures NoiseRuns(f) == []
  {
    if f != [] {
      NoiseRunsAllQuiet(f[..|f| - 1]);
    }
  }

  /** An unbroken block of noise is one streak, never split. */
  lemma {:induction false} NoiseRunsAllNoise(f: seq<bool>)
    requires |f| > 0
    requires forall i :: 0 <= i < |f| ==> f[i]
    ensures NoiseRuns(f) == [|f|]
  {
    TrailingRunAllNoise(f);
    ClosedRunsAllNoise(f);
  }

  lemma {:induction false} TrailingRunAllNoise(f: seq<bool>)
    requires forall i :: 0 <= i < |f| ==> f[i]
    ensures TrailingRun(f) == |f|
  {
    if f != [] {
      TrailingRunAllNoise(f[..|f| - 1]);
    }
  }

  lemma {:induction false} ClosedRunsAllNoise(f: seq<bool>)
    requires forall i :: 0 <= i < |f| ==> f[i]
    ensures ClosedRuns(f) == []
  {
    if f != [] {
      ClosedRunsAllNoise(f[..|f| - 1]);
    }
  }

  /** A quiet sample separates streaks: the streaks of `a + [false] + b` are those of
      `a` followed by those of `b`. With the two lemmas above this pins the streak list
      down completely: each one is a maximal run. */
  lemma NoiseRunsSplitAtQuiet(a: seq<bool>, b: seq<bool>)
    ensures NoiseRuns(a + [false] + b) == NoiseRuns(a) + NoiseRuns(b)
  {
    SplitAtQuiet(a, b);
  }

  lemma {:induction false} SplitAtQuiet(a: seq<bool>, b: seq<bool>)
    ensures TrailingRun(a + [false] + b) == TrailingRun(b)
    ensures ClosedRuns(a + [false] + b) == NoiseRuns(a) + ClosedRuns(b)
  {
    var f := a + [false] + b;
    if b == [] {
      assert f[..|f| - 1] == a;
    } else {
      var q := b[..|b| - 1];
      assert f[..|f| - 1] == a + [false] + q;
      SplitAtQuiet(a, q);
    }
  }

  /** The night `[F,T,T,F,T,F,F,T,T,T]` has three streaks: two, one and a trailing three. */
  lemma NoiseRunsExample()
    ensures NoiseRuns([false, true, true, false, true, false, false, true, true, true]) == [2, 1, 3]
  {
    var a := [false, true, true];
    var b := [true];
    var c := [false, true, true, true];
    assert NoiseRuns(a) == [2] by {
      assert a == [] + [false] + [true, true];
      NoiseRunsAllQuiet([]);
      NoiseRunsAllNoise([true, true]);
      NoiseRunsSplitAtQuiet([], [true, true]);
    }
    assert NoiseRuns(c) == [3] by {
      assert c == [] + [false] + [true, true, true];
      NoiseRunsAllQuiet([]);
      NoiseRunsAllNoise([true, true, true]);
      NoiseRunsSplitAtQuiet([], [true, true, true]);
    }
    assert NoiseRuns(b) == [1] by {
      NoiseRunsAllNoise(b);
    }
    assert NoiseRuns(b + [false] + c) == [1, 3] by {
      NoiseRunsSplitAtQuiet(b, c);
    }
    assert [false, true, true, false, true, false, false, true, true, true] == a + [false] + (b + [false] + c);
    NoiseRunsSplitAtQuiet(a, b + [false] + c);
  }

  /** `np.mean(consecutive_noise) * interval`, or 0 for a night without streaks. */
  function AverageStreakSeconds(runs: seq<nat>, interval: real): real
  {
    if runs == [] then 0.0 else SumNat(runs) as real / |runs| as real * interval
  }

  /** `max(consecutive_noise) * interval`, or 0 for a night without streaks. */
  function LongestStreakSeconds(runs: seq<nat>, interval: real): real
  {
    if runs == [] then 0.0 else MaxNat(runs) as real * interval
  }

  /** Streak durations: both are 0 exactly when the night has no noise sample; otherwise
      the average is positive and at most the longest streak. */
  lemma StreakSecondsFacts(f: seq<bool>, interval: real)
    requires interval > 0.0
    ensures CountTrue(f) == 0 <==> AverageStreakSeconds(NoiseRuns(f), interval) == 0.0
    ensures CountTrue(f) == 0 <==> LongestStreakSeconds(NoiseRuns(f), interval) == 0.0
    ensures 0.0 <= AverageStreakSeconds(NoiseRuns(f), interval) <= LongestStreakSeconds(NoiseRuns(f), interval)
  {
    var runs := NoiseRuns(f);
    if runs != [] {
      assert SumNat(runs) == CountTrue(f) && CountTrue(f) > 0 &&
        forall k :: 0 <= k < |runs| ==> runs[k] >= 1 by {
        NoiseRunsFacts(f);
        SumNatAtLeastOne(runs);
      }
      assert 0.0 < AverageStreakSeconds(runs, interval) <= LongestStreakSeconds(runs, interval) by {
        RunSecondsFacts(runs, interval);
      }
    } else {
      assert CountTrue(f) == 0 by { CountTrueZeroWithoutRuns(f); }
    }
  }

  /** The same night at a five-second interval: the streaks last 15 seconds at
      the longest and 10 seconds on average. */
  lemma StreakSecondsExample()
    ensures var runs := NoiseRuns([false, true, true, false, true, false, false, true, true, true]);
      LongestStreakSeconds(runs, 5.0) == 15.0 && AverageStreakSeconds(runs, 5.0) == 10.0
  {
    NoiseRunsExample();
    var runs: seq<nat> := [2, 1, 3];
    assert SumNat(runs) == 6 by {
      assert runs[..2] == [2, 1] && [2, 1][..1] == [2] && [2][..0] == [];
    }
    assert MaxNat(runs) == 3 by {
      assert runs[..2] == [2, 1] && [2, 1][..1] == [2];
    }
  }

  /** For any non-empty list of positive streak lengths, the average duration is
      positive and at most the longest. */
  lemma RunSecondsFacts(runs: seq<nat>, interval: real)
    requires interval > 0.0 && |runs| > 0
    requires forall k :: 0 <= k < |runs| ==> runs[k] >= 1
    ensures 0.0 < AverageStreakSeconds(runs, interval) <= LongestStreakSeconds(runs, interval)
  {
    var q, m := SumNat(runs) as real / |runs| as real, MaxNat(runs) as real;
    assert AverageStreakSeconds(runs, interval) == q * interval;
    assert LongestStreakSeconds(runs, interval) == m * interval;
    assert 0.0 < q <= m by {
      SumNatAtMost(runs, MaxNat(runs));
      SumNatAtLeastOne(runs);
      QuotientAtMost(SumNat(runs), |runs|, MaxNat(runs));
    }
    ScaleMonotone(q, m, interval);
  }

  lemma QuotientAtMost(s: nat, n: nat, m: nat)
    requires 0 < n && 1 <= s <= n * m
    ensures 0.0 < s as real / n as real <= m as real
  {
    NatProductAsReal(n, m);
    var S, N, M := s as real, n as real, m as real;
    assert M - S / N == (N * M - S) / N;
  }

  lemma NatProductAsReal(a: nat, b: nat)
    ensures (a * b) as real == a as real * b as real
  {
  }

  lemma ScaleMonotone(a: real, b: real, k: real)
    requires 0.0 < a <= b && 0.0 < k
    ensures 0.0 < a * k <= b * k
  {
  }

  lemma {:induction false} SumNatAtMost(s: seq<nat>, m: nat)
    requires forall i :: 0 <= i < |s| ==> s[i] <= m
    ensures SumNat(s) <= |s| * m
  {
    if s != [] {
      SumNatAtMost(s[..|s| - 1], m);
    }
  }

  lemma {:induction false} SumNatAtLeastOne(s: seq<nat>)
    requires |s| > 0 && forall i :: 0 <= i < |s| ==> s[i] >= 1
    ensures SumNat(s) >= 1
  {
    if |s| > 1 {
      SumNatAtLeastOne(s[..|s| - 1]);
    }
  }

  lemma CountTrueZeroWithoutRuns(f: seq<bool>)
    requires NoiseRuns(f) == []
    ensures CountTrue(f) == 0
  {
    NoiseRunsFacts(f);
  }
}
