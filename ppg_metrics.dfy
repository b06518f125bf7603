/**
 * Signal analytics of the PPG path: robust normalisation, adaptive peak
 * detection with greedy refractory de-duplication, instantaneous heart rate
 * from a window's inter-beat intervals (IBIs), the two-tier IBI validator and
 * the gated SDNN / RMSSD / pNN50 statistics.
 *
 * Amplitudes and durations are exact reals. Square roots are not modelled:
 * SDNN is given as its variance and RMSSD as the mean squared successive
 * difference, from which the published values are the square roots.
 */
module PpgMetrics {
  import opened Options
  import opened Stats

  /** The tuning constants of `PPG_CONFIG` that the analytics read (the filter cut-offs are not modelled). */
  datatype Config = Config(
    fs: nat,
    windowSeconds: nat,
    peakMinDistanceSec: real,
    peakThresholdK: real,
    hrvUpdateMs: real,
    ibiMinMs: real,
    ibiMaxMs: real)

  const DefaultConfig: Config := Config(50, 8, 0.35, 0.6, 500.0, 300.0, 2000.0)

  /** A usable configuration: a positive sample rate and a non-empty, positive IBI range. */
  predicate ValidConfig(c: Config) {
    c.fs > 0 && 0.0 < c.ibiMinMs <= c.ibiMaxMs
  }

  lemma DefaultConfigValid()
    ensures ValidConfig(DefaultConfig)
  {
  }

  /** Gaussian consistency factor: 1.4826 * MAD estimates the standard deviation. */
  const MadToSigma: real := 1.4826

  /** Outlier limit of the IBI validator: at most 30% relative deviation from the baseline. */
  const MaxRelativeDeviation: real := 0.3

  // ---------------------------------------------------------------------
  // Robust normalisation

  datatype Normalized = Normalized(data: seq<real>, mad: real, median: real)

  function AbsDeviations(s: seq<real>, m: real): (r: seq<real>)
    ensures |r| == |s|
    ensures forall i :: 0 <= i < |s| ==> r[i] == Abs(s[i] - m)
  {
    seq(|s|, i requires 0 <= i < |s| => Abs(s[i] - m))
  }

  function Rescale(s: seq<real>, median: real, scale: real): (r: seq<real>)
    requires scale != 0.0
    ensures |r| == |s|
    ensures forall i :: 0 <= i < |s| ==> r[i] == (s[i] - median) / scale
  {
    seq(|s|, i requires 0 <= i < |s| => (s[i] - median) / scale)
  }

  /** The MAD of a window about its median, scaled by 1.4826. */
  function MadAbout(samples: seq<real>, median: real): (mad: real)
    requires |samples| > 0
    ensures mad >= 0.0
  {
    var devs := AbsDeviations(samples, median);
    UpperMedianIn(devs);
    UpperMedian(devs) * MadToSigma
  }

  /** The divisor of the normalisation: the MAD, or 1 when the MAD is 0. */
  function ScaleFor(mad: real): (scale: real)
    ensures scale != 0.0
  {
    if mad != 0.0 then mad else 1.0
  }

  /**
   * `robustNormalize`: median, MAD scaled to sigma, and the window rescaled to
   * (x - median) / scale.
   */
  function RobustNormalize(samples: seq<real>): (r: Normalized)
    ensures |r.data| == |samples|
    ensures r.mad >= 0.0
    ensures |samples| == 0 ==> r == Normalized([], 0.0, 0.0)
  {
    if |samples| == 0 then Normalized([], 0.0, 0.0)
    else
      var median := UpperMedian(samples);
      var mad := MadAbout(samples, median);
      Normalized(Rescale(samples, median, ScaleFor(mad)), mad, median)
  }

  /** Multiplication by the scale, the inverse of the division in `Rescale`. */
  function Unscale(x: real, scale: real): real {
    x * scale
  }

  /** Normalised values scale back to the deviations from the median. */
  lemma RescaleInverse(s: seq<real>, median: real, scale: real)
    requires scale != 0.0
    ensures forall i :: 0 <= i < |s| ==> Unscale(Rescale(s, median, scale)[i], scale) == s[i] - median
  {
    var r := Rescale(s, median, scale);
    forall i | 0 <= i < |s|
      ensures Unscale(r[i], scale) == s[i] - median
    {
      DivMulCancel(s[i] - median, scale);
    }
  }

  /**
   * For a non-empty window the median is an upper median of the samples (an
   * element with at most n/2 samples below and (n-1)/2 above), the MAD is
   * 1.4826 times an upper median of the absolute deviations, and every sample
   * is recovered from its normalised value.
   */
  lemma RobustNormalizeSpec(samples: seq<real>)
    requires |samples| > 0
    ensures var r := RobustNormalize(samples);
      && r.median in multiset(samples)
      && CountLess(samples, r.median) <= |samples| / 2
      && CountGreater(samples, r.median) <= (|samples| - 1) / 2
      && r.mad == UpperMedian(AbsDeviations(samples, r.median)) * MadToSigma
      && forall i :: 0 <= i < |samples| ==> Unscale(r.data[i], ScaleFor(r.mad)) == samples[i] - r.median
  {
    UpperMedianSpec(samples);
    var r := RobustNormalize(samples);
    RescaleInverse(samples, r.median, ScaleFor(r.mad));
  }

  /** A constant window has MAD 0, so the scale falls back to 1 and every normalised value is 0. */
  lemma RobustNormalizeConstant(samples: seq<real>)
    requires |samples| > 0 && IsConstant(samples)
    ensures var r := RobustNormalize(samples);
      && r.median == samples[0]
      && r.mad == 0.0
      && ScaleFor(r.mad) == 1.0
      && forall i :: 0 <= i < |r.data| ==> r.data[i] == 0.0
  {
    var c := samples[0];
    UpperMedianWithin(samples, c, c);
    var devs := AbsDeviations(samples, c);
    UpperMedianWithin(devs, 0.0, 0.0);
  }

  // ---------------------------------------------------------------------
  // Peak detection

  /** Index i is a raw candidate: not at an edge, above the threshold, rising from the left and not falling to the right. */
  predicate IsCandidate(data: seq<real>, thr: real, i: int) {
    1 <= i < |data| - 1 && data[i] > thr && data[i] > data[i - 1] && data[i] >= data[i + 1]
  }

  /** The candidates among indices 1 .. hi-1, in increasing order (the first loop of `detectPeaks`). */
  function CandidatesBelow(data: seq<real>, thr: real, hi: int): seq<int>
    decreases hi
  {
    if hi <= 1 then []
    else CandidatesBelow(data, thr, hi - 1) + (if IsCandidate(data, thr, hi - 1) then [hi - 1] else [])
  }

  predicate StrictlyIncreasing(s: seq<int>) {
    forall i, j :: 0 <= i < j < |s| ==> s[i] < s[j]
  }

  /** Consecutive entries are at least d apart. */
  predicate Spaced(s: seq<int>, d: int) {
    forall j :: 0 < j < |s| ==> s[j] - s[j - 1] >= d
  }

  /** The candidate list holds exactly the candidate indices below hi, strictly increasing. */
  lemma {:induction false} CandidatesBelowSpec(data: seq<real>, thr: real, hi: int)
    ensures var c := CandidatesBelow(data, thr, hi);
      && StrictlyIncreasing(c)
      && (forall i :: i in c <==> IsCandidate(data, thr, i) && i < hi)
      && (forall j :: 0 <= j < |c| ==> 1 <= c[j] < hi)
    decreases hi
  {
    if hi > 1 {
      CandidatesBelowSpec(data, thr, hi - 1);
    }
  }

  /** The state of the de-duplication pass: committed peaks and the held candidate. */
  datatype Held = Held(committed: seq<int>, held: int)

  /** The de-duplication state after the first k candidates. */
  function DedupPrefix(data: seq<real>, idxs: seq<int>, minDist: int, k: nat): (h: Held)
    requires 1 <= k <= |idxs|
    requires forall j :: 0 <= j < |idxs| ==> 0 <= idxs[j] < |data|
    ensures 0 <= h.held < |data|
  {
    if k == 1 then Held([], idxs[0])
    else
      var h := DedupPrefix(data, idxs, minDist, k - 1);
      var c := idxs[k - 1];
      if c - h.held < minDist then
        (if data[c] > data[h.held] then Held(h.committed, c) else h)
      else Held(h.committed + [h.held], c)
  }

  /** The greedy de-duplication: commit the held candidate once the next one is far enough away, keep the higher one otherwise. */
  function Dedup(data: seq<real>, idxs: seq<int>, minDist: int): seq<int>
    requires forall j :: 0 <= j < |idxs| ==> 0 <= idxs[j] < |data|
  {
    if |idxs| == 0 then []
    else
      var h := DedupPrefix(data, idxs, minDist, |idxs|);
      h.committed + [h.held]
  }

  lemma {:induction false} DedupPrefixSpec(data: seq<real>, idxs: seq<int>, minDist: int, k: nat)
    requires 1 <= k <= |idxs|
    requires forall j :: 0 <= j < |idxs| ==> 0 <= idxs[j] < |data|
    requires StrictlyIncreasing(idxs)
    ensures var h := DedupPrefix(data, idxs, minDist, k);
      var v := h.committed + [h.held];
      && StrictlyIncreasing(v)
      && Spaced(v, minDist)
      && (forall x :: x in v ==> x in idxs[..k])
      && h.held <= idxs[k - 1]
      && |v| <= k
  {
    if k > 1 {
      DedupPrefixSpec(data, idxs, minDist, k - 1);
      var g := DedupPrefix(data, idxs, minDist, k - 1);
      var u := g.committed + [g.held];
      var c := idxs[k - 1];
      assert g.held < c;
      assert forall x :: x in idxs[..k - 1] ==> x in idxs[..k] by {
        assert idxs[..k] == idxs[..k - 1] + [c];
      }
      assert u[|u| - 1] == g.held;
      assert forall j :: 0 <= j < |u| - 1 ==> u[j] < u[|u| - 1];
      if c - g.held < minDist {
        if data[c] > data[g.held] {
          DedupReplaceHeld(g.committed, g.held, c, minDist);
        }
      } else {
        assert (u + [c])[|u|] - (u + [c])[|u| - 1] >= minDist;
      }
    }
  }

  /** Replacing the held candidate by a later one keeps the committed-plus-held list increasing and spaced. */
  lemma DedupReplaceHeld(committed: seq<int>, held: int, c: int, minDist: int)
    requires StrictlyIncreasing(committed + [held]) && Spaced(committed + [held], minDist)
    requires held < c
    ensures StrictlyIncreasing(committed + [c]) && Spaced(committed + [c], minDist)
  {
    var u := committed + [held];
    var v := committed + [c];
    assert forall j :: 0 <= j < |committed| ==> v[j] == u[j];
    assert Spaced(v, minDist) by {
      forall j | 0 < j < |v|
        ensures v[j] - v[j - 1] >= minDist
      {
        if j == |committed| {
          assert u[j] - u[j - 1] >= minDist;
        } else {
          assert u[j] - u[j - 1] >= minDist;
        }
      }
    }
  }

  /**
   * The conflict rule of the greedy pass: a candidate closer than minDist to
   * the held one competes with it and the higher of the two stays held (the
   * earlier one on a tie) with nothing committed; a candidate far enough away
   * commits the held one and becomes held itself.
   */
  lemma DedupKeepsHigher(data: seq<real>, idxs: seq<int>, minDist: int, k: nat)
    requires 2 <= k <= |idxs|
    requires forall j :: 0 <= j < |idxs| ==> 0 <= idxs[j] < |data|
    ensures var g := DedupPrefix(data, idxs, minDist, k - 1);
      var h := DedupPrefix(data, idxs, minDist, k);
      var c := idxs[k - 1];
      && (c - g.held < minDist ==>
            && h.committed == g.committed
            && (h.held == g.held || h.held == c)
            && data[h.held] >= data[g.held] && data[h.held] >= data[c]
            && (data[c] <= data[g.held] ==> h.held == g.held))
      && (c - g.held >= minDist ==> h.committed == g.committed + [g.held] && h.held == c)
  {
  }

  /** `validIndices` is a strictly increasing selection of the candidates, spaced by minDist, nonempty iff the candidates are. */
  lemma DedupSpec(data: seq<real>, idxs: seq<int>, minDist: int)
    requires forall j :: 0 <= j < |idxs| ==> 0 <= idxs[j] < |data|
    requires StrictlyIncreasing(idxs)
    ensures var v := Dedup(data, idxs, minDist);
      && StrictlyIncreasing(v)
      && Spaced(v, minDist)
      && (forall x :: x in v ==> x in idxs)
      && (|v| == 0 <==> |idxs| == 0)
      && |v| <= |idxs|
  {
    if |idxs| > 0 {
      DedupPrefixSpec(data, idxs, minDist, |idxs|);
      assert idxs[..|idxs|] == idxs;
    }
  }

  datatype PeakResult = PeakResult(indices: seq<int>, validIndices: seq<int>)

  /** The normalised-domain threshold k / 1.4826, equivalent to median + k * raw MAD in the raw domain. */
  function PeakThreshold(cfg: Config): real {
    cfg.peakThresholdK / MadToSigma
  }

  /** The refractory distance floor(peakMinDistanceSec * fs), in samples. */
  function MinDistSamples(cfg: Config, fs: nat): int {
    (cfg.peakMinDistanceSec * (fs as real)).Floor
  }

  /** Candidate scan and de-duplication over an already normalised window. */
  function PeaksOf(d: seq<real>, thr: real, minDist: int): PeakResult
    requires |d| >= 2
  {
    var c := CandidatesBelow(d, thr, |d| - 1);
    CandidatesBelowSpec(d, thr, |d| - 1);
    PeakResult(c, Dedup(d, c, minDist))
  }

  /** What `detectPeaks` returns. */
  function Peaks(samples: seq<real>, fs: nat, cfg: Config): PeakResult {
    if |samples| < 2 then PeakResult([], [])
    else PeaksOf(RobustNormalize(samples).data, PeakThreshold(cfg), MinDistSamples(cfg, fs))
  }

  /**
   * The candidates are exactly the interior local maxima above the threshold,
   * strictly increasing; the valid peaks are a strictly increasing,
   * refractory-spaced selection of them, nonempty iff they are.
   */
  lemma PeaksOfSpec(d: seq<real>, thr: real, minDist: int)
    requires |d| >= 2
    ensures var r := PeaksOf(d, thr, minDist);
      && (forall i :: i in r.indices <==> IsCandidate(d, thr, i))
      && StrictlyIncreasing(r.indices)
      && (forall j :: 0 <= j < |r.indices| ==> 1 <= r.indices[j] <= |d| - 2)
      && StrictlyIncreasing(r.validIndices)
      && Spaced(r.validIndices, minDist)
      && (forall x :: x in r.validIndices ==> x in r.indices)
      && (|r.validIndices| == 0 <==> |r.indices| == 0)
      && |r.validIndices| <= |r.indices|
  {
    var c := CandidatesBelow(d, thr, |d| - 1);
    CandidatesBelowSpec(d, thr, |d| - 1);
    DedupSpec(d, c, minDist);
  }

  /**
   * `detectPeaks` on a window: fewer than 2 samples give two empty lists;
   * otherwise `PeaksOfSpec` holds of the normalised window with the
   * normalised threshold and the refractory distance in samples.
   */
  lemma PeaksSpec(samples: seq<real>, fs: nat, cfg: Config)
    ensures |samples| < 2 ==> Peaks(samples, fs, cfg) == PeakResult([], [])
    ensures |samples| >= 2 ==>
      var r := Peaks(samples, fs, cfg);
      var d := RobustNormalize(samples).data;
      && (forall i :: i in r.indices <==> IsCandidate(d, PeakThreshold(cfg), i))
      && (forall j :: 0 <= j < |r.indices| ==> 1 <= r.indices[j] <= |samples| - 2)
      && StrictlyIncreasing(r.validIndices)
      && Spaced(r.validIndices, MinDistSamples(cfg, fs))
      && (forall x :: x in r.validIndices ==> x in r.indices)
      && (|r.validIndices| == 0 <==> |r.indices| == 0)
  {
    if |samples| >= 2 {
      PeaksOfSpec(RobustNormalize(samples).data, PeakThreshold(cfg), MinDistSamples(cfg, fs));
    }
  }

  /** The candidate scan of `detectPeaks`. */
  method ScanCandidates(normData: seq<real>, normThreshold: real) returns (indices: seq<int>)
    requires |normData| >= 2
    ensures indices == CandidatesBelow(normData, normThreshold, |normData| - 1)
  {
    indices := [];
    var i := 1;
    while i < |normData| - 1
      invariant 1 <= i <= |normData| - 1
      invariant indices == CandidatesBelow(normData, normThreshold, i)
    {
      var y := normData[i];
      if y > normThreshold && y > normData[i - 1] && y >= normData[i + 1] {
        indices := indices + [i];
      }
      i := i + 1;
    }
  }

  /** The greedy de-duplication pass of `detectPeaks`, holding one candidate and its value. */
  method DedupPass(normData: seq<real>, indices: seq<int>, minDistSamples: int) returns (valid: seq<int>)
    requires forall j :: 0 <= j < |indices| ==> 0 <= indices[j] < |normData|
    ensures valid == Dedup(normData, indices, minDistSamples)
  {
    valid := [];
    if |indices| == 0 {
      return;
    }
    var lastIdx := indices[0];
    var lastVal := normData[indices[0]];
    var j := 1;
    while j < |indices|
      invariant 1 <= j <= |indices|
      invariant Held(valid, lastIdx) == DedupPrefix(normData, indices, minDistSamples, j)
      invariant 0 <= lastIdx < |normData| && lastVal == normData[lastIdx]
    {
      var currIdx := indices[j];
      var currVal := normData[indices[j]];
      if currIdx - lastIdx < minDistSamples {
        if currVal > lastVal {
          lastIdx, lastVal := currIdx, currVal;
        }
      } else {
        valid := valid + [lastIdx];
        lastIdx, lastVal := currIdx, currVal;
      }
      j := j + 1;
    }
    valid := valid + [lastIdx];
  }

  /** `detectPeaks`: normalise, scan for candidates, de-duplicate. */
  method DetectPeaks(samples: seq<real>, fs: nat, cfg: Config) returns (r: PeakResult)
    ensures r == Peaks(samples, fs, cfg)
  {
    if |samples| < 2 {
      return PeakResult([], []);
    }
    var normData := RobustNormalize(samples).data;
    var normThreshold := PeakThreshold(cfg);
    var minDistSamples := MinDistSamples(cfg, fs);
    var indices := ScanCandidates(normData, normThreshold);
    CandidatesBelowSpec(normData, normThreshold, |normData| - 1);
    var valid := DedupPass(normData, indices, minDistSamples);
    r := PeakResult(indices, valid);
  }

  // ---------------------------------------------------------------------
  // Instantaneous heart rate

  /** The interval in milliseconds between two sample indices at rate fs. */
  function IbiMs(from: int, to: int, fs: nat): real
    requires fs > 0
  {
    ((to - from) as real / fs as real) * 1000.0
  }

  /** The IBIs between consecutive peaks: entry i is the gap from peak i to peak i + 1, in ms. */
  function IbisOf(p: seq<int>, fs: nat): (r: seq<real>)
    requires fs > 0
    ensures |p| >= 1 ==> |r| == |p| - 1
    ensures |p| == 0 ==> r == []
    ensures forall i :: 0 <= i < |p| - 1 ==> r[i] == IbiMs(p[i], p[i + 1], fs)
  {
    if |p| < 2 then []
    else IbisOf(p[..|p| - 1], fs) + [IbiMs(p[|p| - 2], p[|p| - 1], fs)]
  }

  predicate InBounds(ms: real, cfg: Config) {
    ms >= cfg.ibiMinMs && ms <= cfg.ibiMaxMs
  }

  /** The IBIs within the physiological range, in order. */
  function InRange(xs: seq<real>, cfg: Config): (r: seq<real>)
    ensures |r| <= |xs|
    ensures forall j :: 0 <= j < |r| ==> InBounds(r[j], cfg)
  {
    if |xs| == 0 then []
    else InRange(xs[..|xs| - 1], cfg) + (if InBounds(xs[|xs| - 1], cfg) then [xs[|xs| - 1]] else [])
  }

  /**
   * `InRange` keeps exactly the in-range values, each as often as it occurs
   * (the upper median of the kept IBIs depends on the repeats).
   */
  lemma {:induction false} InRangeMembers(xs: seq<real>, cfg: Config)
    ensures forall x :: x in InRange(xs, cfg) <==> x in xs && InBounds(x, cfg)
    ensures forall x :: multiset(InRange(xs, cfg))[x] == if InBounds(x, cfg) then multiset(xs)[x] else 0
  {
    if |xs| > 0 {
      var t := xs[..|xs| - 1];
      InRangeMembers(t, cfg);
      assert xs == t + [xs[|xs| - 1]];
    }
  }

  /** The filter works piecewise, so the kept IBIs stay in their original order. */
  lemma {:induction false} InRangeAppend(a: seq<real>, b: seq<real>, cfg: Config)
    ensures InRange(a + b, cfg) == InRange(a, cfg) + InRange(b, cfg)
    decreases |b|
  {
    if |b| == 0 {
      assert a + b == a;
    } else {
      var b0 := b[..|b| - 1];
      InRangeAppend(a, b0, cfg);
      assert (a + b)[..|a + b| - 1] == a + b0;
    }
  }

  datatype MetricText = NoSignal | Noise | Live

  datatype MetricResult = MetricResult(bpm: Option<real>, sdnn: Option<real>, nnCount: nat, text: MetricText)

  /** What `computeMetrics` returns for a window's valid peak indices. */
  function MetricsOf(peakIndices: seq<int>, fs: nat, cfg: Config): MetricResult
    requires fs > 0 && ValidConfig(cfg)
  {
    if |peakIndices| < 2 then MetricResult(None, None, 0, NoSignal)
    else
      var valid := InRange(IbisOf(peakIndices, fs), cfg);
      if |valid| == 0 then MetricResult(None, None, 0, Noise)
      else MetricResult(Some(MedianBpm(valid, cfg)), None, |valid|, Live)
  }

  /** 60000 over the upper median of a non-empty list of in-range IBIs. */
  function MedianBpm(valid: seq<real>, cfg: Config): real
    requires |valid| > 0 && ValidConfig(cfg)
    requires forall j :: 0 <= j < |valid| ==> InBounds(valid[j], cfg)
  {
    assert forall j :: 0 <= j < |valid| ==> InBounds(valid[j], cfg) && cfg.ibiMinMs <= valid[j] <= cfg.ibiMaxMs;
    UpperMedianWithin(valid, cfg.ibiMinMs, cfg.ibiMaxMs);
    60000.0 / UpperMedian(valid)
  }

  /**
   * The median bpm is 60000 over an in-range IBI that has at most half of the
   * IBIs below it and at most half above it, so it lies between
   * 60000/ibiMaxMs and 60000/ibiMinMs.
   */
  lemma MedianBpmSpec(valid: seq<real>, cfg: Config)
    requires |valid| > 0 && ValidConfig(cfg)
    requires forall j :: 0 <= j < |valid| ==> InBounds(valid[j], cfg)
    ensures var bpm := MedianBpm(valid, cfg);
      && (exists med :: med in valid && CountLess(valid, med) <= |valid| / 2 &&
            CountGreater(valid, med) <= (|valid| - 1) / 2 && bpm == 60000.0 / med)
      && 60000.0 / cfg.ibiMaxMs <= bpm <= 60000.0 / cfg.ibiMinMs
  {
    var med := UpperMedian(valid);
    UpperMedianWithin(valid, cfg.ibiMinMs, cfg.ibiMaxMs);
    UpperMedianSpec(valid);
    UpperMedianIn(valid);
    DivAntitone(60000.0, cfg.ibiMinMs, med);
    DivAntitone(60000.0, med, cfg.ibiMaxMs);
  }

  /**
   * With fewer than 2 peaks, or no IBI in range, there is no bpm and nnCount
   * is 0. Otherwise bpm is 60000 over an upper median of the in-range IBIs,
   * hence between 60000/ibiMaxMs and 60000/ibiMinMs, and nnCount is the number
   * of in-range IBIs. SDNN is never filled in here.
   */
  lemma MetricsOfSpec(peakIndices: seq<int>, fs: nat, cfg: Config)
    requires fs > 0 && ValidConfig(cfg)
    ensures var m := MetricsOf(peakIndices, fs, cfg);
      var valid := InRange(IbisOf(peakIndices, fs), cfg);
      && m.sdnn == None
      && (m.bpm == None <==> |peakIndices| < 2 || |valid| == 0)
      && (m.bpm == None <==> m.nnCount == 0)
      && (m.text == Live <==> m.bpm != None)
      && (m.text == NoSignal <==> |peakIndices| < 2)
      && (m.bpm != None ==> m.nnCount == |valid| && m.nnCount <= |peakIndices| - 1)
  {
  }

  /** A Live bpm is the median bpm of the in-range IBIs, with the properties of `MedianBpmSpec`. */
  lemma MetricsOfBpm(peakIndices: seq<int>, fs: nat, cfg: Config)
    requires fs > 0 && ValidConfig(cfg)
    requires MetricsOf(peakIndices, fs, cfg).bpm != None
    ensures var bpm := MetricsOf(peakIndices, fs, cfg).bpm.value;
      var valid := InRange(IbisOf(peakIndices, fs), cfg);
      && |valid| > 0
      && (exists med :: med in valid && CountLess(valid, med) <= |valid| / 2 &&
            CountGreater(valid, med) <= (|valid| - 1) / 2 && bpm == 60000.0 / med)
      && 60000.0 / cfg.ibiMaxMs <= bpm <= 60000.0 / cfg.ibiMinMs
  {
    MedianBpmSpec(InRange(IbisOf(peakIndices, fs), cfg), cfg);
  }

  /** Under the default configuration an instantaneous bpm lies in [30, 200]. */
  lemma DefaultBpmRange(peakIndices: seq<int>)
    ensures var m := MetricsOf(peakIndices, DefaultConfig.fs, DefaultConfig);
      m.bpm != None ==> 30.0 <= m.bpm.value <= 200.0
  {
    if MetricsOf(peakIndices, DefaultConfig.fs, DefaultConfig).bpm != None {
      MetricsOfBpm(peakIndices, DefaultConfig.fs, DefaultConfig);
    }
  }

  /** `computeMetrics`: IBIs collected in a loop, filtered to range, upper median. */
  method ComputeMetrics(peakIndices: seq<int>, fs: nat, cfg: Config) returns (m: MetricResult)
    requires fs > 0 && ValidConfig(cfg)
    ensures m == MetricsOf(peakIndices, fs, cfg)
  {
    if |peakIndices| < 2 {
      return MetricResult(None, None, 0, NoSignal);
    }
    var ibiMs: seq<real> := [];
    var i := 1;
    while i < |peakIndices|
      invariant 1 <= i <= |peakIndices|
      invariant ibiMs == IbisOf(peakIndices[..i], fs)
    {
      var diffSteps := peakIndices[i] - peakIndices[i - 1];
      var ms := (diffSteps as real / fs as real) * 1000.0;
      assert peakIndices[..i + 1][..i] == peakIndices[..i];
      ibiMs := ibiMs + [ms];
      i := i + 1;
    }
    assert peakIndices[..i] == peakIndices;
    var validIbi := InRange(ibiMs, cfg);
    if |validIbi| == 0 {
      return MetricResult(None, None, 0, Noise);
    }
    var bpm := MedianBpm(validIbi, cfg);
    m := MetricResult(Some(bpm), None, |validIbi|, Live);
  }

  // ---------------------------------------------------------------------
  // IBI validation

  /** `isValidIBI`: hard physiological bounds, then (with a positive baseline) at most 30% relative deviation. */
  function IsValidIbi(ibi: real, historyMedian: Option<real>, cfg: Config): bool {
    if ibi < cfg.ibiMinMs || ibi > cfg.ibiMaxMs then false
    else if historyMedian.Some? && historyMedian.value > 0.0 then
      var deviation := Abs(ibi - historyMedian.value);
      !(deviation / historyMedian.value > MaxRelativeDeviation)
    else true
  }

  /**
   * A division-free statement of the validator: an IBI is valid iff it is
   * within bounds and, when the baseline m is positive, |ibi - m| <= 0.3 m.
   * A missing or non-positive baseline reduces it to the bounds check.
   */
  lemma IsValidIbiSpec(ibi: real, historyMedian: Option<real>, cfg: Config)
    ensures IsValidIbi(ibi, historyMedian, cfg) <==>
      InBounds(ibi, cfg) &&
      (historyMedian.Some? && historyMedian.value > 0.0 ==>
        Abs(ibi - historyMedian.value) <= MaxRelativeDeviation * historyMedian.value)
    ensures !InBounds(ibi, cfg) ==> !IsValidIbi(ibi, historyMedian, cfg)
    ensures (historyMedian == None || historyMedian.value <= 0.0) ==>
      (IsValidIbi(ibi, historyMedian, cfg) <==> InBounds(ibi, cfg))
  {
    if historyMedian.Some? && historyMedian.value > 0.0 {
      DivAbove(Abs(ibi - historyMedian.value), historyMedian.value, MaxRelativeDeviation);
    }
  }

  /** The boundary policy under the defaults: 30% is accepted, 37.5% rejected, 250 and 2100 ms always rejected. */
  lemma IsValidIbiExamples(baseline: Option<real>)
    ensures IsValidIbi(1040.0, Some(800.0), DefaultConfig)
    ensures !IsValidIbi(1100.0, Some(800.0), DefaultConfig)
    ensures !IsValidIbi(250.0, baseline, DefaultConfig)
    ensures !IsValidIbi(2100.0, baseline, DefaultConfig)
    ensures IsValidIbi(1100.0, None, DefaultConfig)
  {
    IsValidIbiSpec(1040.0, Some(800.0), DefaultConfig);
    IsValidIbiSpec(1100.0, Some(800.0), DefaultConfig);
  }

  // ---------------------------------------------------------------------
  // HRV statistics over the NN history (windowed path)

  /** Minimum history sizes: 30 for SDNN, 20 for RMSSD and pNN50. */
  const SdnnMinCount: nat := 30
  const RmssdMinCount: nat := 20

  /** `calcSdnnFromHistory` before its square root: the sample variance (divisor n - 1), gated at 30 entries. */
  function SdnnVarianceFromHistory(h: seq<real>): Option<real> {
    if |h| < SdnnMinCount then None
    else Some(SumSqDev(h, Mean(h)) / ((|h| - 1) as real))
  }

  /** `calcRmssd` before its square root: the mean squared successive difference, gated at 20 entries. */
  function RmssdSquaredFromHistory(h: seq<real>): Option<real> {
    if |h| < RmssdMinCount then None
    else Some(SumSqSuccDiff(h) / ((|h| - 1) as real))
  }

  /** `calcPnn50`: the percentage of successive differences above 50 ms, gated at 20 entries. */
  function Pnn50FromHistory(h: seq<real>): Option<real> {
    if |h| < RmssdMinCount then None
    else Some((Count50(h) as real / ((|h| - 1) as real)) * 100.0)
  }

  /**
   * The gates, and what the statistics are once defined: a non-negative
   * variance that is 0 iff the history is constant, a non-negative mean
   * squared difference that is 0 iff the history is constant, and a pNN50 in
   * [0, 100].
   */
  lemma HistoryStatsSpec(h: seq<real>)
    ensures SdnnVarianceFromHistory(h) == None <==> |h| < 30
    ensures RmssdSquaredFromHistory(h) == None <==> |h| < 20
    ensures Pnn50FromHistory(h) == None <==> |h| < 20
    ensures SdnnVarianceFromHistory(h) != None ==>
      SdnnVarianceFromHistory(h).value >= 0.0 &&
      (SdnnVarianceFromHistory(h).value == 0.0 <==> IsConstant(h))
    ensures RmssdSquaredFromHistory(h) != None ==>
      RmssdSquaredFromHistory(h).value >= 0.0 &&
      (RmssdSquaredFromHistory(h).value == 0.0 <==> IsConstant(h))
    ensures Pnn50FromHistory(h) != None ==> 0.0 <= Pnn50FromHistory(h).value <= 100.0
  {
    if |h| >= 20 {
      var n1 := (|h| - 1) as real;
      SumSqSuccDiffNonNegative(h);
      SumSqSuccDiffZero(h);
      Count50Bound(h);
      DivRatioBound(Count50(h) as real, n1);
      if |h| >= 30 {
        var m := Mean(h);
        SumSqDevNonNegative(h, m);
        SumSqDevZero(h, m);
        if IsConstant(h) {
          SumOfConstant(h, h[0]);
          assert m == h[0];
        }
      }
    }
  }

  /** Thirty identical IBIs: every statistic is defined and zero. */
  lemma ConstantHistoryStats(h: seq<real>)
    requires |h| >= 30 && IsConstant(h)
    ensures SdnnVarianceFromHistory(h) == Some(0.0)
    ensures RmssdSquaredFromHistory(h) == Some(0.0)
    ensures Pnn50FromHistory(h) == Some(0.0)
  {
    HistoryStatsSpec(h);
    Count50OfConstant(h);
  }

  /** `calcRmssd`: the squared differences accumulated in a loop. */
  method CalcRmssd(h: seq<real>) returns (r: Option<real>)
    ensures r == RmssdSquaredFromHistory(h)
  {
    if |h| < 20 {
      return None;
    }
    var sumSqDiff := 0.0;
    var i := 1;
    while i < |h|
      invariant 1 <= i <= |h|
      invariant sumSqDiff == SumSqSuccDiff(h[..i])
    {
      var diff := h[i] - h[i - 1];
      assert h[..i + 1][..i] == h[..i];
      sumSqDiff := sumSqDiff + Sq(diff);
      i := i + 1;
    }
    assert h[..i] == h;
    r := Some(sumSqDiff / ((|h| - 1) as real));
  }

  /** `calcPnn50`: the count of large differences accumulated in a loop. */
  method CalcPnn50(h: seq<real>) returns (r: Option<real>)
    ensures r == Pnn50FromHistory(h)
  {
    if |h| < 20 {
      return None;
    }
    var count50: nat := 0;
    var i := 1;
    while i < |h|
      invariant 1 <= i <= |h|
      invariant count50 == Count50(h[..i])
    {
      var diff := Abs(h[i] - h[i - 1]);
      assert h[..i + 1][..i] == h[..i];
      if diff > 50.0 {
        count50 := count50 + 1;
      }
      i := i + 1;
    }
    assert h[..i] == h;
    r := Some((count50 as real / ((|h| - 1) as real)) * 100.0);
  }
}
