/** The three columns `SleepAnalyzer.preprocess_data` adds to a loaded frame:
    `dB_smoothed` (a centred moving average), `is_noise` (a threshold flag) and
    `is_rem` (the REM heuristic: quieter than the night's mean with moderate
    variability in a 60-sample window). */
module Preprocessing {
  import opened Common

  /** Width of the window of the REM variability test. */
  const RemWindow: nat := 60

  /** Index of the first sample of the centred window that pandas'
      `rolling(window=w, center=True, min_periods=1)` gives to sample `i`:
      the window spans `w` samples and ends `(w - 1) / 2` samples after `i`. */
  function WindowStart(i: nat, w: nat): nat
    requires w >= 1
  {
    if i + 1 + (w - 1) / 2 >= w then i + 1 + (w - 1) / 2 - w else 0
  }

  /** One past the last sample of that window, clipped to the `n` samples. */
  function WindowEnd(n: nat, i: nat, w: nat): nat
  {
    if i + 1 + (w - 1) / 2 <= n then i + 1 + (w - 1) / 2 else n
  }

  /** The samples pandas averages (or takes the deviation of) for sample `i`: at most
      `w` of them. */
  function Window(s: seq<real>, i: nat, w: nat): (r: seq<real>)
    requires i < |s| && w >= 1
    ensures |r| <= w
  {
    s[WindowStart(i, w)..WindowEnd(|s|, i, w)]
  }

  /** The window of sample `i` holds sample `i` itself, so it is never empty
      (`min_periods=1` is always met). */
  lemma WindowHoldsSample(s: seq<real>, i: nat, w: nat)
    requires i < |s| && w >= 1
    ensures s[i] in Window(s, i, w)
    ensures |Window(s, i, w)| > 0
  {
    assert Window(s, i, w)[i - WindowStart(i, w)] == s[i];
  }

  /** `dB_smoothed`: the column has one entry per sample, and each entry is the mean of
      the clipped window around it. */
  function Smooth(s: seq<real>, w: nat): (r: seq<real>)
    requires w >= 1
    ensures |r| == |s|
    ensures forall i :: 0 <= i < |s| ==> r[i] == Mean(Window(s, i, w))
  {
    seq(|s|, i requires 0 <= i < |s| => Mean(Window(s, i, w)))
  }

  /** Each smoothed value lies between the quietest and the loudest sample of its
      window, so smoothing never leaves the range of the raw values around it. */
  lemma SmoothWithinWindow(s: seq<real>, w: nat, i: nat)
    requires w >= 1 && i < |s|
    ensures Min(Window(s, i, w)) <= Smooth(s, w)[i] <= Max(Window(s, i, w))
  {
    MeanBetweenMinAndMax(Window(s, i, w));
  }

  /** A moving average over a window of one sample is the column itself. */
  lemma SmoothWindowOneIsIdentity(s: seq<real>)
    ensures Smooth(s, 1) == s
  {
    forall i | 0 <= i < |s|
      ensures Smooth(s, 1)[i] == s[i]
    {
      var win := Window(s, i, 1);
      assert win == [s[i]];
      assert Sum(win) == s[i] by { assert win[..0] == []; }
    }
    assert |Smooth(s, 1)| == |s|;
  }

  /** `is_noise`: a sample is noise exactly when it reaches the threshold. */
  function NoiseFlags(s: seq<real>, thresholdDb: real): (r: seq<bool>)
    ensures |r| == |s|
    ensures forall i :: 0 <= i < |s| ==> (r[i] <==> s[i] >= thresholdDb)
  {
    seq(|s|, i requires 0 <= i < |s| => s[i] >= thresholdDb)
  }

  /** Raising the threshold never turns a quiet sample into noise, so the number
      of noise samples can only fall. */
  lemma {:induction false} NoiseCountAntitone(s: seq<real>, low: real, high: real)
    requires low <= high
    ensures CountTrue(NoiseFlags(s, high)) <= CountTrue(NoiseFlags(s, low))
  {
    if s != [] {
      var p := s[..|s| - 1];
      NoiseCountAntitone(p, low, high);
      assert NoiseFlags(s, high)[..|s| - 1] == NoiseFlags(p, high);
      assert NoiseFlags(s, low)[..|s| - 1] == NoiseFlags(p, low);
    }
  }

  /** The REM variability test on a window: its sample standard deviation lies strictly
      between 1.5 and 4, stated on the variance (see StdBoundsAsVariance). A window of
      one sample has no sample deviation (NaN), and NaN fails both comparisons. */
  predicate ModerateVariability(win: seq<real>)
  {
    match SampleVariance(win)
    case None => false
    case Some(v) => 2.25 < v < 16.0
  }

  /** For a non-negative standard deviation `sd` with square `v`, the strict bounds
      `1.5 < sd < 4` say the same as `2.25 < v < 16`. */
  lemma StdBoundsAsVariance(sd: real, v: real)
    requires 0.0 <= sd && sd * sd == v
    ensures (1.5 < sd < 4.0) <==> (2.25 < v < 16.0)
  {
    if 1.5 < sd {
      assert sd * sd > 1.5 * sd > 2.25;
    } else {
      assert sd * sd <= 1.5 * sd <= 2.25;
    }
    if sd < 4.0 {
      assert sd * sd <= 4.0 * sd < 16.0;
    } else {
      assert sd * sd >= 4.0 * sd >= 16.0;
    }
  }

  /** `is_rem`: a sample is flagged exactly when it is below the mean of the whole
      column and its 60-sample centred window shows moderate variability. */
  function RemFlags(s: seq<real>): (r: seq<bool>)
    ensures |r| == |s|
    ensures forall i :: 0 <= i < |s| ==>
      (r[i] <==> s[i] < Mean(s) && ModerateVariability(Window(s, i, RemWindow)))
  {
    if s == [] then []
    else
      var m := Mean(s);
      seq(|s|, i requires 0 <= i < |s| => s[i] < m && ModerateVariability(Window(s, i, RemWindow)))
  }

  /** The loudest sample is never below the mean, so no night is REM throughout:
      some sample is not flagged and the REM share stays under 100%. */
  lemma RemNotEverywhere(s: seq<real>)
    requires |s| > 0
    ensures exists j :: 0 <= j < |s| && !RemFlags(s)[j]
    ensures CountTrue(RemFlags(s)) < |s|
  {
    MeanBetweenMinAndMax(s);
    var j :| 0 <= j < |s| && s[j] == Max(s);
    assert !RemFlags(s)[j];
    CountTrueBelowLength(RemFlags(s), j);
  }
}
