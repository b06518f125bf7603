/**
 * The per-frame playback engine of the PPG view: a cursor that moves through
 * a filtered recording, a zero-padded analysis window ending at the cursor,
 * a throttled display refresh and a throttled analytics pass that
 * de-duplicates peaks across overlapping windows, accumulates validated NN
 * intervals in a 30-entry history and smooths the displayed BPM.
 *
 * A `Playback` object holds what the hook keeps in refs and state; `Tick`
 * is one animation frame with the frame timestamp as its parameter. The
 * whole observable state is `PlaybackState`, and `TickSpec`, `LoadSpec` and
 * `SetPlayingSpec` say what each operation makes of it.
 */
module PpgPlayback {
  import opened Options
  import opened Stats
  import opened PpgMetrics

  /** Display refresh throttle, in milliseconds. */
  const GuiIntervalMs: real := 100.0
  /** Cap on the number of points handed to the chart. */
  const MaxDisplayPoints: nat := 1500
  /** Capacity of the NN history. */
  const MaxHistory: nat := 30
  /** Instantaneous rates below this are treated as noise and freeze the display. */
  const BpmFloor: real := 40.0
  /** Weight of the new reading in the exponential moving average. */
  const Alpha: real := 0.15

  /** The SDNN caption: '--', 'Initializing...', 'Collecting n/30', or the value in ms. */
  datatype SdnnText = Placeholder | Initializing | Collecting(count: nat) | Shown(variance: real)

  datatype DebugStats = DebugStats(
    window: nat,
    peaksInView: nat,
    nnCount: nat,
    mad: real,
    rejectedCount: nat,
    lastIbi: real)

  datatype PlaybackState = PlaybackState(
    signal: seq<real>,
    playing: bool,
    index: real,
    lastTime: real,
    lastGuiUpdate: real,
    lastMetricsUpdate: real,
    history: seq<real>,
    lastAbsPeak: int,
    rejectedCount: nat,
    lastBpm: Option<real>,
    waveY: seq<real>,
    bpm: Option<int>,
    sdnn: Option<real>,
    sdnnText: SdnnText,
    debug: DebugStats)

  function InitialState(cfg: Config): PlaybackState {
    PlaybackState([], false, 0.0, 0.0, 0.0, 0.0, [], -1, 0, None, [], None, None, Placeholder,
      DebugStats(cfg.windowSeconds, 0, 0, 0.0, 0, 0.0))
  }

  /**
   * What every reachable state satisfies: the cursor is inside the signal,
   * the history holds at most 30 in-range IBIs and is empty while no peak has
   * been seen, and every smoothed or displayed rate is at least 40.
   */
  predicate Inv(s: PlaybackState, cfg: Config) {
    && s.index >= 0.0
    && (|s.signal| > 0 ==> s.index < |s.signal| as real)
    && |s.history| <= MaxHistory
    && (forall j :: 0 <= j < |s.history| ==> InBounds(s.history[j], cfg))
    && s.lastAbsPeak >= -1
    && (s.lastAbsPeak == -1 ==> s.history == [])
    && (s.lastBpm.Some? ==> s.lastBpm.value >= BpmFloor)
    && (s.bpm.Some? ==> s.bpm.value >= 40)
    && (s.sdnn.Some? ==> s.sdnn.value >= 0.0)
    && (s.sdnnText.Shown? ==> s.sdnn == Some(s.sdnnText.variance))
  }

  lemma InitialStateInv(cfg: Config)
    ensures Inv(InitialState(cfg), cfg)
    ensures InitialState(cfg).sdnnText == Placeholder && InitialState(cfg).bpm == None
  {
  }

  // ---------------------------------------------------------------------
  // Reload

  /**
   * The reload effect, given the inverted and band-passed recording: an empty
   * recording changes nothing; otherwise the cursor, NN history, last peak
   * and rejected counter are reset and the displayed values cleared. The
   * smoothed BPM and the throttle timestamps are kept.
   */
  function LoadSpec(s: PlaybackState, filtered: seq<real>): PlaybackState {
    if |filtered| == 0 then s
    else s.(signal := filtered, index := 0.0, history := [], lastAbsPeak := -1, rejectedCount := 0,
            bpm := None, sdnn := None, sdnnText := Initializing)
  }

  lemma LoadSpecResets(s: PlaybackState, filtered: seq<real>, cfg: Config)
    requires Inv(s, cfg)
    ensures var t := LoadSpec(s, filtered);
      && Inv(t, cfg)
      && (|filtered| > 0 ==>
            t.signal == filtered && t.index == 0.0 && t.history == [] && t.lastAbsPeak == -1 &&
            t.rejectedCount == 0 && t.bpm == None && t.sdnn == None && t.sdnnText == Initializing)
      && (|filtered| == 0 ==> t == s)
      && t.lastBpm == s.lastBpm
  {
  }

  function SetPlayingSpec(s: PlaybackState, playing: bool): PlaybackState {
    s.(playing := playing)
  }

  // ---------------------------------------------------------------------
  // Clock and cursor

  /** Time since the previous frame; the first frame (no previous timestamp) counts as 0. */
  function Elapsed(lastTime: real, time: real): real {
    if lastTime == 0.0 then 0.0 else time - lastTime
  }

  /** dt / 1000 * fs: how many samples the cursor moves in dt milliseconds. */
  function SamplesToAdvance(dt: real, fs: nat): (r: real)
    ensures dt >= 0.0 ==> r >= 0.0
  {
    AdvanceNonNegative(dt, fs);
    (dt / 1000.0) * (fs as real)
  }

  lemma AdvanceNonNegative(dt: real, fs: nat)
    ensures dt >= 0.0 ==> (dt / 1000.0) * (fs as real) >= 0.0
  {
    if dt > 0.0 && fs > 0 {
      MulPositive(dt / 1000.0, fs as real, (dt / 1000.0) * (fs as real));
    }
  }

  /** The advance step: only while playing; past the end the cursor wraps to 0 and the NN state is dropped. */
  function Advance(s: PlaybackState, dt: real, cfg: Config): (r: PlaybackState)
    requires dt >= 0.0 && s.index >= 0.0 && (|s.signal| > 0 ==> s.index < |s.signal| as real)
    ensures r.index >= 0.0 && (|r.signal| > 0 ==> r.index < |r.signal| as real)
    ensures r.signal == s.signal
  {
    if !s.playing then s
    else
      var idx := s.index + SamplesToAdvance(dt, cfg.fs);
      if idx >= |s.signal| as real then s.(index := 0.0, history := [], lastAbsPeak := -1)
      else s.(index := idx)
  }

  /**
   * The cursor moves by exactly dt/1000*fs while playing, unless that reaches
   * the end, in which case it wraps to 0 and the history and last peak are
   * reset (the rejected counter and smoothed BPM are kept). Paused, nothing
   * moves.
   */
  lemma AdvanceSpec(s: PlaybackState, dt: real, cfg: Config)
    requires dt >= 0.0 && s.index >= 0.0 && (|s.signal| > 0 ==> s.index < |s.signal| as real)
    ensures var r := Advance(s, dt, cfg);
      var idx := s.index + SamplesToAdvance(dt, cfg.fs);
      && (!s.playing ==> r == s)
      && (s.playing && idx < |s.signal| as real ==> r == s.(index := idx))
      && (s.playing && idx >= |s.signal| as real ==>
            r.index == 0.0 && r.history == [] && r.lastAbsPeak == -1 &&
            r.rejectedCount == s.rejectedCount && r.lastBpm == s.lastBpm)
      && (r.index >= s.index || r.index == 0.0)
  {
  }

  // ---------------------------------------------------------------------
  // Window extraction

  function WindowLength(cfg: Config): nat {
    cfg.windowSeconds * cfg.fs
  }

  function Zeros(n: nat): (z: seq<real>)
    ensures |z| == n && forall j :: 0 <= j < n ==> z[j] == 0.0
  {
    seq(n, _ => 0.0)
  }

  /** The winLen samples before currIdx, left-padded with zeros where they would start before the recording. */
  function Window(signal: seq<real>, currIdx: int, winLen: nat): seq<real>
    requires 0 <= currIdx <= |signal|
  {
    var start := currIdx - winLen;
    if start < 0 then Zeros(-start) + signal[..currIdx] else signal[start..currIdx]
  }

  /** The window always has winLen samples, and its sample j is the recording at absolute index start + j, or 0 before the start. */
  lemma WindowSpec(signal: seq<real>, currIdx: int, winLen: nat)
    requires 0 <= currIdx <= |signal|
    ensures var w := Window(signal, currIdx, winLen);
      var start := currIdx - winLen;
      && |w| == winLen
      && forall j :: 0 <= j < winLen ==> w[j] == (if start + j < 0 then 0.0 else signal[start + j])
  {
  }

  // ---------------------------------------------------------------------
  // Display downsampling

  /** ceil(n / 1500) when n exceeds the display cap. */
  function DisplayStep(n: nat): (step: nat)
    ensures step >= 1
  {
    if n > MaxDisplayPoints then (n + MaxDisplayPoints - 1) / MaxDisplayPoints else 1
  }

  /** The filter idx % step == 0 over the first n samples, in order. */
  function KeepMultiples(data: seq<real>, step: nat, n: nat): seq<real>
    requires step > 0 && n <= |data|
  {
    if n == 0 then []
    else KeepMultiples(data, step, n - 1) + (if (n - 1) % step == 0 then [data[n - 1]] else [])
  }

  /** The display array: the normalised window, or every step-th sample of it when it has more than 1500. */
  function Downsample(data: seq<real>): seq<real> {
    if |data| > MaxDisplayPoints then KeepMultiples(data, DisplayStep(|data|), |data|) else data
  }

  lemma {:induction false} MulAtLeast(k: int, step: int)
    requires k >= 1 && step > 0
    ensures k * step >= step
    decreases k
  {
    if k > 1 {
      MulAtLeast(k - 1, step);
      assert k * step == (k - 1) * step + step;
    }
  }

  lemma MulGap(a: int, b: int, step: int)
    requires a > b && step > 0
    ensures a * step - b * step >= step
  {
    MulAtLeast(a - b, step);
    assert (a - b) * step == a * step - b * step;
  }

  lemma MulMono(a: int, b: int, step: int)
    requires a >= b && step > 0
    ensures a * step >= b * step
  {
    if a > b {
      MulGap(a, b, step);
    }
  }

  /** Quotient and remainder are determined by n == q * step + r with 0 <= r < step. */
  lemma DivUnique(n: int, step: int, q: int, r: int)
    requires step > 0 && 0 <= r < step && n == q * step + r
    ensures n / step == q && n % step == r
  {
    var q2 := n / step;
    assert n == q2 * step + n % step;
    if q > q2 {
      MulGap(q, q2, step);
    } else if q < q2 {
      MulGap(q2, q, step);
    }
  }

  lemma DivMono(a: int, b: int, step: int)
    requires step > 0 && 0 <= a <= b
    ensures a / step <= b / step
  {
    assert a == (a / step) * step + a % step;
    assert b == (b / step) * step + b % step;
    if a / step > b / step {
      MulGap(a / step, b / step, step);
    }
  }

  lemma DivBelow(a: int, k: int, step: int)
    requires step > 0 && 0 <= a < k * step
    ensures a / step < k
  {
    assert a == (a / step) * step + a % step;
    if a / step >= k {
      MulMono(a / step, k, step);
    }
  }

  lemma DivSucc(n: nat, step: nat)
    requires step > 0 && n >= 1
    ensures n / step == (n - 1) / step + (if n % step == 0 then 1 else 0)
  {
    var q := (n - 1) / step;
    var r := (n - 1) % step;
    if r == step - 1 {
      DivUnique(n, step, q + 1, 0);
    } else {
      DivUnique(n, step, q, r + 1);
    }
  }

  /** The filter keeps (n-1)/step + 1 samples, sample i being data[i * step]. */
  lemma {:induction false} KeepMultiplesSpec(data: seq<real>, step: nat, n: nat)
    requires step > 0 && 1 <= n <= |data|
    ensures var r := KeepMultiples(data, step, n);
      && |r| == (n - 1) / step + 1
      && forall i :: 0 <= i < |r| ==> i * step < n && r[i] == data[i * step]
  {
    var r := KeepMultiples(data, step, n);
    if n == 1 {
      assert KeepMultiples(data, step, 0) == [];
      assert 0 % step == 0;
      assert r == [] + [data[0]];
    } else {
      KeepMultiplesSpec(data, step, n - 1);
      var p := KeepMultiples(data, step, n - 1);
      DivSucc(n - 1, step);
      if (n - 1) % step == 0 {
        DivUnique(n - 1, step, (n - 1) / step, 0);
        assert |p| * step == n - 1;
        assert r == p + [data[n - 1]];
      } else {
        assert r == p;
      }
    }
  }

  /** Every index that is a multiple of step appears in the filter, at position index / step. */
  lemma KeepMultiplesComplete(data: seq<real>, step: nat, n: nat, j: nat)
    requires step > 0 && 1 <= n <= |data|
    requires j < n && j % step == 0
    ensures var r := KeepMultiples(data, step, n);
      j / step < |r| && r[j / step] == data[j]
  {
    KeepMultiplesSpec(data, step, n);
    DivUnique(j, step, j / step, 0);
    DivMono(j, n - 1, step);
  }

  /**
   * The display never gets more than 1500 points; a short window is shown as
   * is, and a long one as exactly the samples at multiples of ceil(n/1500),
   * in order.
   */
  lemma DownsampleSpec(data: seq<real>)
    ensures var r := Downsample(data);
      && |r| <= MaxDisplayPoints
      && (|data| <= MaxDisplayPoints ==> r == data)
      && (|data| > MaxDisplayPoints ==>
            var step := DisplayStep(|data|);
            && (forall i :: 0 <= i < |r| ==> i * step < |data| && r[i] == data[i * step])
            && (forall j :: 0 <= j < |data| && j % step == 0 ==> j / step < |r| && r[j / step] == data[j]))
  {
    var n := |data|;
    if n > MaxDisplayPoints {
      var step := DisplayStep(n);
      KeepMultiplesSpec(data, step, n);
      assert MaxDisplayPoints * step >= n;
      DivBelow(n - 1, MaxDisplayPoints, step);
      forall j | 0 <= j < n && j % step == 0
        ensures j / step < |Downsample(data)| && Downsample(data)[j / step] == data[j]
      {
        KeepMultiplesComplete(data, step, n, j);
      }
    }
  }

  // ---------------------------------------------------------------------
  // BPM smoothing

  /** JavaScript truthiness of a nullable number: present and non-zero. */
  predicate Truthy(o: Option<real>) {
    o.Some? && o.value != 0.0
  }

  function Ema(prev: real, instant: real): real {
    prev * (1.0 - Alpha) + instant * Alpha
  }

  datatype BpmState = BpmState(lastBpm: Option<real>, bpm: Option<int>)

  /** The freeze/smoothing rule applied to one analytics pass's instantaneous rate. */
  function Smooth(lastBpm: Option<real>, bpm: Option<int>, instant: Option<real>): BpmState {
    if Truthy(instant) && instant.value >= BpmFloor then
      if Truthy(lastBpm) then
        var smoothed := Ema(lastBpm.value, instant.value);
        BpmState(Some(smoothed), Some(JsRound(smoothed)))
      else BpmState(instant, Some(JsRound(instant.value)))
    else if !Truthy(lastBpm) then BpmState(lastBpm, None)
    else BpmState(lastBpm, bpm)
  }

  lemma JsRoundMonotone(x: real, k: int)
    requires x >= k as real
    ensures JsRound(x) >= k
  {
  }

  /**
   * A reading of at least 40 is taken as-is the first time and otherwise
   * blended to 0.85 of the old value plus 0.15 of the reading, which lies
   * between the two; the display shows the blend rounded. Any other reading keeps the old smoothed value
   * and the old display, or clears the display if nothing was ever smoothed.
   */
  lemma SmoothSpec(lastBpm: Option<real>, bpm: Option<int>, instant: Option<real>)
    ensures var r := Smooth(lastBpm, bpm, instant);
      && (Truthy(instant) && instant.value >= BpmFloor && !Truthy(lastBpm) ==>
            r.lastBpm == instant && r.bpm == Some(JsRound(instant.value)))
      && (Truthy(instant) && instant.value >= BpmFloor && Truthy(lastBpm) ==>
            r.lastBpm == Some(0.85 * lastBpm.value + 0.15 * instant.value) &&
            r.bpm == Some(JsRound(r.lastBpm.value)) &&
            (lastBpm.value <= r.lastBpm.value <= instant.value ||
             instant.value <= r.lastBpm.value <= lastBpm.value))
      && (!(Truthy(instant) && instant.value >= BpmFloor) ==>
            r.lastBpm == lastBpm && r.bpm == (if Truthy(lastBpm) then bpm else None))
  {
  }

  /** Smoothing keeps every smoothed and displayed rate at 40 or more. */
  lemma SmoothFloor(lastBpm: Option<real>, bpm: Option<int>, instant: Option<real>)
    requires lastBpm.Some? ==> lastBpm.value >= BpmFloor
    requires bpm.Some? ==> bpm.value >= 40
    ensures var r := Smooth(lastBpm, bpm, instant);
      && (r.lastBpm.Some? ==> r.lastBpm.value >= BpmFloor)
      && (r.bpm.Some? ==> r.bpm.value >= 40)
  {
    var r := Smooth(lastBpm, bpm, instant);
    SmoothSpec(lastBpm, bpm, instant);
    if r.lastBpm.Some? && r.lastBpm != lastBpm {
      JsRoundMonotone(r.lastBpm.value, 40);
    } else if Truthy(instant) && instant.value >= BpmFloor {
      JsRoundMonotone(r.lastBpm.value, 40);
    }
  }

  // ---------------------------------------------------------------------
  // Cross-window peak merging

  /** Window-relative peak indices shifted to absolute indices. */
  function AbsolutePeaks(valid: seq<int>, startIdx: int): (r: seq<int>)
    ensures |r| == |valid|
  {
    seq(|valid|, j requires 0 <= j < |valid| => startIdx + valid[j])
  }

  /** The peaks after `last`, in order. */
  function NewerThan(peaks: seq<int>, last: int): (r: seq<int>)
    ensures |r| <= |peaks|
    ensures forall j :: 0 <= j < |r| ==> r[j] > last
  {
    if |peaks| == 0 then []
    else NewerThan(peaks[..|peaks| - 1], last) + (if peaks[|peaks| - 1] > last then [peaks[|peaks| - 1]] else [])
  }

  /** Exactly the peaks after `last` are kept, and their order is preserved. */
  lemma {:induction false} NewerThanSpec(peaks: seq<int>, last: int)
    ensures forall p :: p in NewerThan(peaks, last) <==> p in peaks && p > last
    ensures StrictlyIncreasing(peaks) ==> StrictlyIncreasing(NewerThan(peaks, last))
  {
    if |peaks| > 0 {
      var t := peaks[..|peaks| - 1];
      var x := peaks[|peaks| - 1];
      NewerThanSpec(t, last);
      assert peaks == t + [x];
      if StrictlyIncreasing(peaks) && x > last {
        var r := NewerThan(t, last);
        assert StrictlyIncreasing(t) by {
          assert forall i :: 0 <= i < |t| ==> t[i] == peaks[i];
        }
        forall i | 0 <= i < |r|
          ensures r[i] < x
        {
          assert r[i] in t;
          var k :| 0 <= k < |t| && t[k] == r[i];
          assert peaks[k] == t[k];
        }
        assert NewerThan(peaks, last) == r + [x];
      }
    }
  }

  /** Shifting keeps a strictly increasing list strictly increasing. */
  lemma AbsolutePeaksIncreasing(valid: seq<int>, startIdx: int)
    requires StrictlyIncreasing(valid)
    ensures StrictlyIncreasing(AbsolutePeaks(valid, startIdx))
  {
  }

  /**
   * A peak at window position valid[j] lands on the recording sample it was found at:
   * when its absolute index is not in the zero padding, it lies before currIdx and the
   * recording holds there the window's value at valid[j]; inside the padding it is negative.
   */
  lemma AbsolutePeaksLocate(signal: seq<real>, currIdx: int, winLen: nat, valid: seq<int>)
    requires 0 <= currIdx <= |signal|
    requires forall j :: 0 <= j < |valid| ==> 0 <= valid[j] < winLen
    ensures var r := AbsolutePeaks(valid, currIdx - winLen);
      var w := Window(signal, currIdx, winLen);
      forall j :: 0 <= j < |valid| ==>
        && r[j] - (currIdx - winLen) == valid[j]
        && r[j] < currIdx
        && (r[j] >= 0 ==> signal[r[j]] == w[valid[j]])
        && (r[j] < 0 ==> w[valid[j]] == 0.0)
  {
    WindowSpec(signal, currIdx, winLen);
  }

  /** The NN state threaded through one merge. */
  datatype MergeState = MergeState(history: seq<real>, prevPeak: int, rejectedCount: nat, lastIbi: real)

  /** The first batch after a reset: the IBIs between the first k new peaks that pass the bounds check are appended. */
  function FirstBatchPrefix(history: seq<real>, peaks: seq<int>, k: nat, cfg: Config): seq<real>
    requires 1 <= k <= |peaks| && cfg.fs > 0
  {
    if k == 1 then history
    else
      var h := FirstBatchPrefix(history, peaks, k - 1, cfg);
      var ms := IbiMs(peaks[k - 2], peaks[k - 1], cfg.fs);
      if IsValidIbi(ms, None, cfg) then h + [ms] else h
  }

  /** A later batch: the first k new peaks are walked from prevPeak, each IBI appended or counted as rejected. */
  function WalkPrefix(history: seq<real>, prev: int, rejected: nat, peaks: seq<int>, median: Option<real>,
                      k: nat, cfg: Config): MergeState
    requires k <= |peaks| && cfg.fs > 0
  {
    if k == 0 then MergeState(history, prev, rejected, 0.0)
    else
      var w := WalkPrefix(history, prev, rejected, peaks, median, k - 1, cfg);
      var p := peaks[k - 1];
      var ms := IbiMs(w.prevPeak, p, cfg.fs);
      if IsValidIbi(ms, median, cfg) then MergeState(w.history + [ms], p, w.rejectedCount, ms)
      else MergeState(w.history, p, w.rejectedCount + 1, w.lastIbi)
  }

  /** The baseline for a later batch: the upper median of the history as it stood before the batch. */
  function HistoryMedian(history: seq<real>): Option<real> {
    if |history| > 0 then Some(UpperMedian(history)) else None
  }

  /** Keeps the last 30 entries (`slice(-30)` when longer). */
  function Trim(h: seq<real>): seq<real> {
    if |h| > MaxHistory then h[|h| - MaxHistory..] else h
  }

  function Merge(history: seq<real>, lastAbsPeak: int, rejected: nat, newPeaks: seq<int>, cfg: Config): MergeState
    requires cfg.fs > 0
  {
    if |newPeaks| == 0 then MergeState(history, lastAbsPeak, rejected, 0.0)
    else if lastAbsPeak == -1 then
      MergeState(Trim(FirstBatchPrefix(history, newPeaks, |newPeaks|, cfg)), newPeaks[|newPeaks| - 1], rejected, 0.0)
    else
      var w := WalkPrefix(history, lastAbsPeak, rejected, newPeaks, HistoryMedian(history), |newPeaks|, cfg);
      MergeState(Trim(w.history), w.prevPeak, w.rejectedCount, w.lastIbi)
  }

  /** The trimmed history has at most 30 entries and is the most recent suffix, untouched when already short. */
  lemma TrimSpec(h: seq<real>)
    ensures |Trim(h)| <= MaxHistory
    ensures |h| <= MaxHistory ==> Trim(h) == h
    ensures |h| > MaxHistory ==> |Trim(h)| == MaxHistory
    ensures forall j :: 0 <= j < |Trim(h)| ==> Trim(h)[j] == h[|h| - |Trim(h)| + j]
  {
  }

  /** A first batch only appends, and every appended IBI passes the bounds check; it never rejects. */
  lemma {:induction false} FirstBatchSpec(history: seq<real>, peaks: seq<int>, k: nat, cfg: Config)
    requires 1 <= k <= |peaks| && cfg.fs > 0
    ensures var h := FirstBatchPrefix(history, peaks, k, cfg);
      && |history| <= |h| <= |history| + k - 1
      && h[..|history|] == history
      && forall j :: |history| <= j < |h| ==> InBounds(h[j], cfg)
  {
    if k > 1 {
      FirstBatchSpec(history, peaks, k - 1, cfg);
      var h := FirstBatchPrefix(history, peaks, k - 1, cfg);
      var ms := IbiMs(peaks[k - 2], peaks[k - 1], cfg.fs);
      IsValidIbiSpec(ms, None, cfg);
      if IsValidIbi(ms, None, cfg) {
        assert (h + [ms])[..|history|] == h[..|history|];
      }
    }
  }

  /**
   * Walking k new peaks: each one either appends its IBI, which then passes
   * the validator against the fixed baseline, or increments the rejected
   * counter, so accepted + rejected = k; the walk ends at the k-th peak.
   */
  lemma {:induction false} WalkSpec(history: seq<real>, prev: int, rejected: nat, peaks: seq<int>,
                                    median: Option<real>, k: nat, cfg: Config)
    requires k <= |peaks| && cfg.fs > 0
    ensures var w := WalkPrefix(history, prev, rejected, peaks, median, k, cfg);
      && |w.history| >= |history|
      && w.history[..|history|] == history
      && (|w.history| - |history|) + (w.rejectedCount - rejected) == k
      && w.rejectedCount >= rejected
      && (forall j :: |history| <= j < |w.history| ==> IsValidIbi(w.history[j], median, cfg))
      && w.prevPeak == (if k == 0 then prev else peaks[k - 1])
      && (|w.history| > |history| ==> w.lastIbi == w.history[|w.history| - 1])
  {
    if k > 0 {
      WalkSpec(history, prev, rejected, peaks, median, k - 1, cfg);
      var w := WalkPrefix(history, prev, rejected, peaks, median, k - 1, cfg);
      var ms := IbiMs(w.prevPeak, peaks[k - 1], cfg.fs);
      if IsValidIbi(ms, median, cfg) {
        assert (w.history + [ms])[..|history|] == w.history[..|history|];
      }
    }
  }

  /** The IBIs of a prefix of the peaks grow by the gap to the next peak. */
  lemma IbisOfSnoc(peaks: seq<int>, k: nat, fs: nat)
    requires 2 <= k <= |peaks| && fs > 0
    ensures IbisOf(peaks[..k], fs) == IbisOf(peaks[..k - 1], fs) + [IbiMs(peaks[k - 2], peaks[k - 1], fs)]
  {
    assert peaks[..k][..k - 1] == peaks[..k - 1];
  }

  /** Filtering a list with one more value: that value is kept iff it is in bounds. */
  lemma InRangeSnoc(xs: seq<real>, x: real, cfg: Config)
    ensures InRange(xs + [x], cfg) == InRange(xs, cfg) + (if InBounds(x, cfg) then [x] else [])
  {
    assert (xs + [x])[..|xs|] == xs;
  }

  /**
   * A first batch appends exactly the in-range IBIs between consecutive new
   * peaks, in peak order.
   */
  lemma {:induction false} FirstBatchIbis(history: seq<real>, peaks: seq<int>, k: nat, cfg: Config)
    requires 1 <= k <= |peaks| && cfg.fs > 0
    ensures FirstBatchPrefix(history, peaks, k, cfg) == history + InRange(IbisOf(peaks[..k], cfg.fs), cfg)
  {
    if k == 1 {
      assert history + InRange([], cfg) == history;
    } else {
      FirstBatchIbis(history, peaks, k - 1, cfg);
      var ms := IbiMs(peaks[k - 2], peaks[k - 1], cfg.fs);
      var pre := IbisOf(peaks[..k - 1], cfg.fs);
      var kept := InRange(pre, cfg);
      var t: seq<real> := if InBounds(ms, cfg) then [ms] else [];
      assert FirstBatchPrefix(history, peaks, k, cfg) == FirstBatchPrefix(history, peaks, k - 1, cfg) + t by {
        FirstBatchStep(history, peaks, k, cfg);
      }
      assert InRange(IbisOf(peaks[..k], cfg.fs), cfg) == kept + t by {
        IbisOfSnoc(peaks, k, cfg.fs);
        InRangeSnoc(pre, ms, cfg);
      }
      assert (history + kept) + t == history + (kept + t);
    }
  }

  /** One more new peak in a first batch appends its IBI iff it is in bounds. */
  lemma FirstBatchStep(history: seq<real>, peaks: seq<int>, k: nat, cfg: Config)
    requires 2 <= k <= |peaks| && cfg.fs > 0
    ensures var ms := IbiMs(peaks[k - 2], peaks[k - 1], cfg.fs);
      FirstBatchPrefix(history, peaks, k, cfg) ==
        FirstBatchPrefix(history, peaks, k - 1, cfg) + (if InBounds(ms, cfg) then [ms] else [])
  {
    IsValidIbiSpec(IbiMs(peaks[k - 2], peaks[k - 1], cfg.fs), None, cfg);
  }

  /** The IBIs that pass the validator against the given baseline, in order. */
  function KeepValid(xs: seq<real>, median: Option<real>, cfg: Config): (r: seq<real>)
    ensures |r| <= |xs|
    ensures forall j :: 0 <= j < |r| ==> IsValidIbi(r[j], median, cfg)
  {
    if |xs| == 0 then []
    else KeepValid(xs[..|xs| - 1], median, cfg) + (if IsValidIbi(xs[|xs| - 1], median, cfg) then [xs[|xs| - 1]] else [])
  }

  /**
   * A later batch appends exactly the IBIs from prevPeak through the new
   * peaks that pass the validator, in peak order.
   */
  lemma {:induction false} WalkIbis(history: seq<real>, prev: int, rejected: nat, peaks: seq<int>,
                                    median: Option<real>, k: nat, cfg: Config)
    requires k <= |peaks| && cfg.fs > 0
    ensures var w := WalkPrefix(history, prev, rejected, peaks, median, k, cfg);
      w.history == history + KeepValid(IbisOf([prev] + peaks[..k], cfg.fs), median, cfg)
  {
    if k == 0 {
      assert [prev] + peaks[..0] == [prev];
    } else {
      WalkIbis(history, prev, rejected, peaks, median, k - 1, cfg);
      WalkIbisStep(history, prev, rejected, peaks, median, k, cfg);
    }
  }

  /** The inductive step of WalkIbis: one more peak extends both sides alike. */
  lemma WalkIbisStep(history: seq<real>, prev: int, rejected: nat, peaks: seq<int>,
                     median: Option<real>, k: nat, cfg: Config)
    requires 1 <= k <= |peaks| && cfg.fs > 0
    requires WalkPrefix(history, prev, rejected, peaks, median, k - 1, cfg).history ==
      history + KeepValid(IbisOf([prev] + peaks[..k - 1], cfg.fs), median, cfg)
    ensures WalkPrefix(history, prev, rejected, peaks, median, k, cfg).history ==
      history + KeepValid(IbisOf([prev] + peaks[..k], cfg.fs), median, cfg)
  {
    var w := WalkPrefix(history, prev, rejected, peaks, median, k - 1, cfg);
    var kept := KeepValid(IbisOf([prev] + peaks[..k - 1], cfg.fs), median, cfg);
    var ms := IbiMs(if k == 1 then prev else peaks[k - 2], peaks[k - 1], cfg.fs);
    var t: seq<real> := if IsValidIbi(ms, median, cfg) then [ms] else [];
    assert WalkPrefix(history, prev, rejected, peaks, median, k, cfg).history == w.history + t by {
      WalkStep(history, prev, rejected, peaks, median, k, cfg);
    }
    assert KeepValid(IbisOf([prev] + peaks[..k], cfg.fs), median, cfg) == kept + t by {
      WalkKeptSnoc(prev, peaks, median, k, cfg);
    }
    assert (history + kept) + t == history + (kept + t);
  }

  /** The validated IBIs from prevPeak through k new peaks grow by the k-th gap when it passes. */
  lemma WalkKeptSnoc(prev: int, peaks: seq<int>, median: Option<real>, k: nat, cfg: Config)
    requires 1 <= k <= |peaks| && cfg.fs > 0
    ensures var ms := IbiMs(if k == 1 then prev else peaks[k - 2], peaks[k - 1], cfg.fs);
      KeepValid(IbisOf([prev] + peaks[..k], cfg.fs), median, cfg) ==
        KeepValid(IbisOf([prev] + peaks[..k - 1], cfg.fs), median, cfg) + (if IsValidIbi(ms, median, cfg) then [ms] else [])
  {
    var ms := IbiMs(if k == 1 then prev else peaks[k - 2], peaks[k - 1], cfg.fs);
    var pre := IbisOf([prev] + peaks[..k - 1], cfg.fs);
    assert IbisOf([prev] + peaks[..k], cfg.fs) == pre + [ms] by {
      WalkIbisSnoc(prev, peaks, k, cfg.fs);
    }
    KeepValidSnoc(pre, ms, median, cfg);
  }

  /** Every interval of a later batch that the validator refuses counts as one rejection. */
  lemma WalkRejections(history: seq<real>, prev: int, rejected: nat, peaks: seq<int>,
                       median: Option<real>, k: nat, cfg: Config)
    requires k <= |peaks| && cfg.fs > 0
    ensures var w := WalkPrefix(history, prev, rejected, peaks, median, k, cfg);
      var ibis := IbisOf([prev] + peaks[..k], cfg.fs);
      w.rejectedCount == rejected + (|ibis| - |KeepValid(ibis, median, cfg)|)
  {
    WalkIbis(history, prev, rejected, peaks, median, k, cfg);
    WalkSpec(history, prev, rejected, peaks, median, k, cfg);
    assert |[prev] + peaks[..k]| == k + 1;
  }

  /** The IBIs from prevPeak through k new peaks grow by the gap from the (k-1)-th peak, or prevPeak, to the k-th. */
  lemma WalkIbisSnoc(prev: int, peaks: seq<int>, k: nat, fs: nat)
    requires 1 <= k <= |peaks| && fs > 0
    ensures IbisOf([prev] + peaks[..k], fs) ==
      IbisOf([prev] + peaks[..k - 1], fs) + [IbiMs(if k == 1 then prev else peaks[k - 2], peaks[k - 1], fs)]
  {
    var q := [prev] + peaks[..k];
    assert q[..k] == [prev] + peaks[..k - 1];
    assert q[k - 1] == (if k == 1 then prev else peaks[k - 2]) && q[k] == peaks[k - 1];
    IbisOfSnoc(q, k + 1, fs);
    assert q[..k + 1] == q;
  }

  /** One more new peak in a later batch appends its IBI from the previous peak, or counts one rejection. */
  lemma WalkStep(history: seq<real>, prev: int, rejected: nat, peaks: seq<int>,
                 median: Option<real>, k: nat, cfg: Config)
    requires 1 <= k <= |peaks| && cfg.fs > 0
    ensures var w := WalkPrefix(history, prev, rejected, peaks, median, k - 1, cfg);
      var v := WalkPrefix(history, prev, rejected, peaks, median, k, cfg);
      var ms := IbiMs(w.prevPeak, peaks[k - 1], cfg.fs);
      && w.prevPeak == (if k == 1 then prev else peaks[k - 2])
      && v.history == w.history + (if IsValidIbi(ms, median, cfg) then [ms] else [])
      && v.rejectedCount == w.rejectedCount + (if IsValidIbi(ms, median, cfg) then 0 else 1)
  {
  }

  /** Filtering a list with one more IBI: that IBI is kept iff it passes the validator. */
  lemma KeepValidSnoc(xs: seq<real>, x: real, median: Option<real>, cfg: Config)
    ensures KeepValid(xs + [x], median, cfg) == KeepValid(xs, median, cfg) + (if IsValidIbi(x, median, cfg) then [x] else [])
  {
    assert (xs + [x])[..|xs|] == xs;
  }

  /** Trimming keeps every entry in range when they all were. */
  lemma TrimInBounds(h: seq<real>, cfg: Config)
    requires forall j :: 0 <= j < |h| ==> InBounds(h[j], cfg)
    ensures |Trim(h)| <= MaxHistory
    ensures forall j :: 0 <= j < |Trim(h)| ==> InBounds(Trim(h)[j], cfg)
  {
    TrimSpec(h);
    var t := Trim(h);
    forall j | 0 <= j < |t|
      ensures InBounds(t[j], cfg)
    {
      assert t[j] == h[|h| - |t| + j];
    }
  }

  /** A first batch: its last peak becomes lastAbsPeak, nothing is rejected, and the history stays short and in range. */
  lemma FirstBatchMerge(history: seq<real>, rejected: nat, newPeaks: seq<int>, cfg: Config)
    requires cfg.fs > 0 && |newPeaks| > 0
    requires forall j :: 0 <= j < |history| ==> InBounds(history[j], cfg)
    ensures var m := Merge(history, -1, rejected, newPeaks, cfg);
      && m.prevPeak == newPeaks[|newPeaks| - 1]
      && m.rejectedCount == rejected && m.lastIbi == 0.0
      && |m.history| <= MaxHistory
      && (forall j :: 0 <= j < |m.history| ==> InBounds(m.history[j], cfg))
  {
    var h := FirstBatchPrefix(history, newPeaks, |newPeaks|, cfg);
    FirstBatchSpec(history, newPeaks, |newPeaks|, cfg);
    forall j | 0 <= j < |h|
      ensures InBounds(h[j], cfg)
    {
      if j < |history| {
        assert h[j] == h[..|history|][j];
      }
    }
    TrimInBounds(h, cfg);
  }

  /** A later batch: the walk ends at the last new peak and the history stays short and in range. */
  lemma WalkMerge(history: seq<real>, lastAbsPeak: int, rejected: nat, newPeaks: seq<int>, cfg: Config)
    requires cfg.fs > 0 && |newPeaks| > 0 && lastAbsPeak != -1
    requires forall j :: 0 <= j < |history| ==> InBounds(history[j], cfg)
    ensures var m := Merge(history, lastAbsPeak, rejected, newPeaks, cfg);
      && m.prevPeak == newPeaks[|newPeaks| - 1]
      && |m.history| <= MaxHistory
      && (forall j :: 0 <= j < |m.history| ==> InBounds(m.history[j], cfg))
  {
    var med := HistoryMedian(history);
    var w := WalkPrefix(history, lastAbsPeak, rejected, newPeaks, med, |newPeaks|, cfg);
    WalkSpec(history, lastAbsPeak, rejected, newPeaks, med, |newPeaks|, cfg);
    forall j | 0 <= j < |w.history|
      ensures InBounds(w.history[j], cfg)
    {
      if j < |history| {
        assert w.history[j] == w.history[..|history|][j];
      } else {
        IsValidIbiSpec(w.history[j], med, cfg);
      }
    }
    TrimInBounds(w.history, cfg);
  }

  /**
   * One merge of new peaks (all after lastAbsPeak). With none, nothing
   * changes. Otherwise lastAbsPeak strictly increases to the last new peak,
   * which is then at least 0, and the history keeps at most 30 in-range IBIs.
   */
  lemma MergeSpec(history: seq<real>, lastAbsPeak: int, rejected: nat, newPeaks: seq<int>, cfg: Config)
    requires cfg.fs > 0 && lastAbsPeak >= -1
    requires forall j :: 0 <= j < |history| ==> InBounds(history[j], cfg)
    requires |history| <= MaxHistory
    requires forall j :: 0 <= j < |newPeaks| ==> newPeaks[j] > lastAbsPeak
    ensures var m := Merge(history, lastAbsPeak, rejected, newPeaks, cfg);
      && (|newPeaks| == 0 ==> m == MergeState(history, lastAbsPeak, rejected, 0.0))
      && (|newPeaks| > 0 ==> m.prevPeak == newPeaks[|newPeaks| - 1] && m.prevPeak > lastAbsPeak && m.prevPeak >= 0)
      && (lastAbsPeak == -1 ==> m.rejectedCount == rejected && m.lastIbi == 0.0)
      && |m.history| <= MaxHistory
      && (forall j :: 0 <= j < |m.history| ==> InBounds(m.history[j], cfg))
  {
    if |newPeaks| > 0 {
      assert newPeaks[|newPeaks| - 1] > lastAbsPeak;
      if lastAbsPeak == -1 {
        FirstBatchMerge(history, rejected, newPeaks, cfg);
      } else {
        WalkMerge(history, lastAbsPeak, rejected, newPeaks, cfg);
      }
    }
  }

  /** Later batches: the walk's accepted and rejected IBIs account for every new peak. */
  lemma MergeAccounting(history: seq<real>, lastAbsPeak: int, rejected: nat, newPeaks: seq<int>, cfg: Config)
    requires cfg.fs > 0 && lastAbsPeak >= 0 && |newPeaks| > 0
    ensures var w := WalkPrefix(history, lastAbsPeak, rejected, newPeaks, HistoryMedian(history), |newPeaks|, cfg);
      && Merge(history, lastAbsPeak, rejected, newPeaks, cfg) == MergeState(Trim(w.history), w.prevPeak, w.rejectedCount, w.lastIbi)
      && (|w.history| - |history|) + (w.rejectedCount - rejected) == |newPeaks|
      && forall j :: |history| <= j < |w.history| ==> IsValidIbi(w.history[j], HistoryMedian(history), cfg)
  {
    WalkSpec(history, lastAbsPeak, rejected, newPeaks, HistoryMedian(history), |newPeaks|, cfg);
  }

  /** The salvage loop of a first batch. */
  method SalvageFirstBatch(history: seq<real>, newPeaks: seq<int>, cfg: Config) returns (h: seq<real>)
    requires |newPeaks| >= 1 && cfg.fs > 0
    ensures h == FirstBatchPrefix(history, newPeaks, |newPeaks|, cfg)
  {
    h := history;
    var i := 1;
    while i < |newPeaks|
      invariant 1 <= i <= |newPeaks|
      invariant h == FirstBatchPrefix(history, newPeaks, i, cfg)
    {
      var dist := newPeaks[i] - newPeaks[i - 1];
      var ms := (dist as real / cfg.fs as real) * 1000.0;
      if IsValidIbi(ms, None, cfg) {
        h := h + [ms];
      }
      i := i + 1;
    }
  }

  /** The walk over a later batch, with a mutable previous peak. */
  method WalkNewPeaks(history: seq<real>, prevPeak: int, rejected: nat, newPeaks: seq<int>,
                      median: Option<real>, cfg: Config) returns (m: MergeState)
    requires cfg.fs > 0
    ensures m == WalkPrefix(history, prevPeak, rejected, newPeaks, median, |newPeaks|, cfg)
  {
    var h := history;
    var prev := prevPeak;
    var rej := rejected;
    var lastNewIbi := 0.0;
    var i := 0;
    while i < |newPeaks|
      invariant 0 <= i <= |newPeaks|
      invariant MergeState(h, prev, rej, lastNewIbi) == WalkPrefix(history, prevPeak, rejected, newPeaks, median, i, cfg)
    {
      var p := newPeaks[i];
      var dist := p - prev;
      var ms := (dist as real / cfg.fs as real) * 1000.0;
      if IsValidIbi(ms, median, cfg) {
        h := h + [ms];
        lastNewIbi := ms;
      } else {
        rej := rej + 1;
      }
      prev := p;
      i := i + 1;
    }
    m := MergeState(h, prev, rej, lastNewIbi);
  }

  // ---------------------------------------------------------------------
  // One frame

  function GuiDue(s: PlaybackState, time: real): bool {
    time - s.lastGuiUpdate > GuiIntervalMs
  }

  /** The display refresh: when due, the normalised window is downsampled into the chart. */
  function GuiStep(s: PlaybackState, time: real, w: seq<real>): PlaybackState {
    if GuiDue(s, time) then s.(lastGuiUpdate := time, waveY := Downsample(RobustNormalize(w).data)) else s
  }

  /** The MAD the display refresh leaves for the analytics pass (0 when it did not run). */
  function GuiMad(s: PlaybackState, time: real, w: seq<real>): real {
    if GuiDue(s, time) then RobustNormalize(w).mad else 0.0
  }

  function AnalyticsDue(s: PlaybackState, time: real, cfg: Config): bool {
    time - s.lastMetricsUpdate > cfg.hrvUpdateMs
  }

  /** The MAD reported by the analytics pass: recomputed when the display left 0. */
  function AnalyticsMad(guiMad: real, w: seq<real>): real {
    if guiMad == 0.0 then RobustNormalize(w).mad else guiMad
  }

  /** The smoothing rule applied to the state. */
  function SmoothStep(s: PlaybackState, instant: Option<real>): PlaybackState {
    var sm := Smooth(s.lastBpm, s.bpm, instant);
    s.(lastBpm := sm.lastBpm, bpm := sm.bpm)
  }

  /** The peaks a pass has not seen yet: the window's validated peaks as absolute indices, after lastAbsPeak. */
  function NewPeaks(valid: seq<int>, startIdx: int, lastAbsPeak: int): seq<int> {
    NewerThan(AbsolutePeaks(valid, startIdx), lastAbsPeak)
  }

  /** The merge of new peaks applied to the NN state. */
  function MergeStep(s: PlaybackState, newPeaks: seq<int>, cfg: Config): PlaybackState
    requires cfg.fs > 0
  {
    var m := Merge(s.history, s.lastAbsPeak, s.rejectedCount, newPeaks, cfg);
    s.(history := m.history, lastAbsPeak := m.prevPeak, rejectedCount := m.rejectedCount)
  }

  /** The SDNN caption and the debug panel at the end of a pass. */
  function CaptionStep(s: PlaybackState, peaksInView: nat, mad: real, lastIbi: real, cfg: Config): PlaybackState {
    var sdnnVal := SdnnVarianceFromHistory(s.history);
    s.(sdnn := if sdnnVal.Some? then sdnnVal else s.sdnn,
       sdnnText := if sdnnVal.Some? then Shown(sdnnVal.value) else Collecting(|s.history|),
       debug := DebugStats(cfg.windowSeconds, peaksInView, |s.history|, if mad > 0.0 then mad else 0.0,
                           s.rejectedCount, lastIbi))
  }

  /** An analytics pass, given the window's validated peaks, their instantaneous BPM and the window's MAD. */
  function ApplyPass(s: PlaybackState, time: real, valid: seq<int>, instant: Option<real>, startIdx: int,
                     mad: real, cfg: Config): PlaybackState
    requires cfg.fs > 0
  {
    var newPeaks := NewPeaks(valid, startIdx, s.lastAbsPeak);
    var lastIbi := Merge(s.history, s.lastAbsPeak, s.rejectedCount, newPeaks, cfg).lastIbi;
    CaptionStep(MergeStep(SmoothStep(s.(lastMetricsUpdate := time), instant), newPeaks, cfg), |valid|, mad, lastIbi, cfg)
  }

  /** The validated peaks of the analysis window. */
  function WindowPeaks(w: seq<real>, cfg: Config): seq<int>
    requires ValidConfig(cfg)
  {
    Peaks(w, cfg.fs, cfg).validIndices
  }

  /** The analytics pass over window w, whose sample 0 is at absolute index startIdx. */
  function AnalyticsStep(s: PlaybackState, time: real, w: seq<real>, startIdx: int, guiMad: real, cfg: Config): PlaybackState
    requires ValidConfig(cfg)
  {
    var valid := WindowPeaks(w, cfg);
    ApplyPass(s, time, valid, MetricsOf(valid, cfg.fs, cfg).bpm, startIdx, AnalyticsMad(guiMad, w), cfg)
  }

  /** The clock update and the cursor advance that open every frame. */
  function AdvanceStep(s: PlaybackState, time: real, cfg: Config): (r: PlaybackState)
    requires Inv(s, cfg) && time >= s.lastTime
    ensures r.index >= 0.0 && (|r.signal| > 0 ==> r.index < |r.signal| as real)
  {
    var s0 := s.(lastTime := time);
    if |s.signal| == 0 then s0 else Advance(s0, Elapsed(s.lastTime, time), cfg)
  }

  /** The analysis window at the cursor of s. */
  function CursorWindow(s: PlaybackState, cfg: Config): seq<real>
    requires 0.0 <= s.index < |s.signal| as real
  {
    Window(s.signal, s.index.Floor, WindowLength(cfg))
  }

  /** The absolute index of the analysis window's first sample (negative while the window is padded). */
  function CursorStart(s: PlaybackState, cfg: Config): int {
    s.index.Floor - WindowLength(cfg)
  }

  /** The display refresh and, when due, the analytics pass over window w starting at absolute index startIdx. */
  function FrameRest(s1: PlaybackState, time: real, w: seq<real>, startIdx: int, cfg: Config): PlaybackState
    requires ValidConfig(cfg)
  {
    var s2 := GuiStep(s1, time, w);
    if AnalyticsDue(s2, time, cfg) then AnalyticsStep(s2, time, w, startIdx, GuiMad(s1, time, w), cfg) else s2
  }

  /** One animation frame at timestamp `time`. */
  function TickSpec(s: PlaybackState, time: real, cfg: Config): PlaybackState
    requires ValidConfig(cfg) && Inv(s, cfg) && time >= s.lastTime
  {
    var s1 := AdvanceStep(s, time, cfg);
    if |s.signal| == 0 then s1 else FrameRest(s1, time, CursorWindow(s1, cfg), CursorStart(s1, cfg), cfg)
  }

  /** An analytics pass keeps the invariant. */
  lemma ApplyPassInv(s: PlaybackState, time: real, valid: seq<int>, instant: Option<real>, startIdx: int,
                     mad: real, cfg: Config)
    requires cfg.fs > 0 && Inv(s, cfg)
    ensures Inv(ApplyPass(s, time, valid, instant, startIdx, mad, cfg), cfg)
  {
    SmoothFloor(s.lastBpm, s.bpm, instant);
    var newPeaks := NewPeaks(valid, startIdx, s.lastAbsPeak);
    MergeSpec(s.history, s.lastAbsPeak, s.rejectedCount, newPeaks, cfg);
    HistoryStatsSpec(Merge(s.history, s.lastAbsPeak, s.rejectedCount, newPeaks, cfg).history);
  }

  /**
   * What a pass does, step by step: the BPM follows the smoothing rule; the
   * NN state is the merge of exactly the window's peaks beyond lastAbsPeak;
   * the caption reads 'Collecting n/30' with the history size exactly while
   * fewer than 30 IBIs are held and otherwise shows the sample variance,
   * which is then also the published SDNN; and the debug panel reports the
   * history size, the rejected total and a non-negative MAD.
   */
  lemma ApplyPassSpec(s: PlaybackState, time: real, valid: seq<int>, instant: Option<real>, startIdx: int,
                      mad: real, cfg: Config)
    requires cfg.fs > 0
    ensures var t := ApplyPass(s, time, valid, instant, startIdx, mad, cfg);
      var newPeaks := NewPeaks(valid, startIdx, s.lastAbsPeak);
      var m := Merge(s.history, s.lastAbsPeak, s.rejectedCount, newPeaks, cfg);
      && t.lastMetricsUpdate == time
      && BpmState(t.lastBpm, t.bpm) == Smooth(s.lastBpm, s.bpm, instant)
      && (forall p :: p in newPeaks <==> p in AbsolutePeaks(valid, startIdx) && p > s.lastAbsPeak)
      && t.history == m.history && t.lastAbsPeak == m.prevPeak && t.rejectedCount == m.rejectedCount
      && (|t.history| < 30 <==> t.sdnnText == Collecting(|t.history|))
      && (|t.history| >= 30 ==>
            t.sdnnText.Shown? && t.sdnn == SdnnVarianceFromHistory(t.history) &&
            t.sdnnText.variance >= 0.0)
      && (|t.history| < 30 ==> t.sdnn == s.sdnn)
      && t.debug.peaksInView == |valid| && t.debug.nnCount == |t.history|
      && t.debug.rejectedCount == t.rejectedCount && t.debug.mad >= 0.0 && t.debug.lastIbi == m.lastIbi
      && t.signal == s.signal && t.index == s.index && t.waveY == s.waveY
  {
    NewerThanSpec(AbsolutePeaks(valid, startIdx), s.lastAbsPeak);
    HistoryStatsSpec(ApplyPass(s, time, valid, instant, startIdx, mad, cfg).history);
  }

  /** The analytics pass keeps the invariant. */
  lemma AnalyticsStepInv(s: PlaybackState, time: real, w: seq<real>, startIdx: int, guiMad: real, cfg: Config)
    requires ValidConfig(cfg) && Inv(s, cfg)
    ensures Inv(AnalyticsStep(s, time, w, startIdx, guiMad, cfg), cfg)
  {
    var valid := WindowPeaks(w, cfg);
    ApplyPassInv(s, time, valid, MetricsOf(valid, cfg.fs, cfg).bpm, startIdx, AnalyticsMad(guiMad, w), cfg);
  }

  /** The display refresh and the analytics pass keep the invariant. */
  lemma FrameRestInv(s1: PlaybackState, time: real, w: seq<real>, startIdx: int, cfg: Config)
    requires ValidConfig(cfg) && Inv(s1, cfg)
    ensures Inv(FrameRest(s1, time, w, startIdx, cfg), cfg)
  {
    var s2 := GuiStep(s1, time, w);
    GuiStepInv(s1, time, w, cfg);
    AnalyticsStepInv(s2, time, w, startIdx, GuiMad(s1, time, w), cfg);
  }

  /** The display refresh touches only the chart and its own clock, so it keeps the invariant. */
  lemma GuiStepInv(s: PlaybackState, time: real, w: seq<real>, cfg: Config)
    requires Inv(s, cfg)
    ensures Inv(GuiStep(s, time, w), cfg)
    ensures var t := GuiStep(s, time, w);
      t == s.(lastGuiUpdate := t.lastGuiUpdate, waveY := t.waveY)
  {
  }

  /** Every frame keeps the invariant. */
  lemma TickPreservesInv(s: PlaybackState, time: real, cfg: Config)
    requires ValidConfig(cfg) && Inv(s, cfg) && time >= s.lastTime
    ensures Inv(TickSpec(s, time, cfg), cfg)
  {
    if |s.signal| > 0 {
      var s1 := AdvanceStep(s, time, cfg);
      AdvanceSpec(s.(lastTime := time), Elapsed(s.lastTime, time), cfg);
      assert Inv(s1, cfg);
      FrameRestInv(s1, time, CursorWindow(s1, cfg), CursorStart(s1, cfg), cfg);
    }
  }

  /**
   * Frame-level throttling: with no recording only the clock moves; the
   * chart changes only when the display is due, and the BPM, the captions
   * and the debug panel change only in an analytics pass, which reports the
   * MAD of the frame's own window.
   */
  lemma TickThrottles(s: PlaybackState, time: real, cfg: Config)
    requires ValidConfig(cfg) && Inv(s, cfg) && time >= s.lastTime
    ensures var t := TickSpec(s, time, cfg);
      && t.lastTime == time
      && (|s.signal| == 0 ==> t == s.(lastTime := time))
      && (!GuiDue(s, time) ==> t.waveY == s.waveY && t.lastGuiUpdate == s.lastGuiUpdate)
      && (!AnalyticsDue(s, time, cfg) ==>
            t.bpm == s.bpm && t.lastBpm == s.lastBpm && t.sdnnText == s.sdnnText && t.debug == s.debug &&
            t.lastMetricsUpdate == s.lastMetricsUpdate)
      && (|s.signal| > 0 && AnalyticsDue(s, time, cfg) ==>
            t.lastMetricsUpdate == time &&
            t.debug.mad == RobustNormalize(CursorWindow(AdvanceStep(s, time, cfg), cfg)).mad)
      && t.signal == s.signal && t.playing == s.playing
  {
    AdvanceStepFrame(s, time, cfg);
    if |s.signal| > 0 {
      var s1 := AdvanceStep(s, time, cfg);
      FrameRestThrottles(s1, time, CursorWindow(s1, cfg), CursorStart(s1, cfg), cfg);
    }
  }

  /** The advance moves only the clock, the cursor and, on wrap-around, the NN baseline. */
  lemma AdvanceStepFrame(s: PlaybackState, time: real, cfg: Config)
    requires Inv(s, cfg) && time >= s.lastTime
    ensures var r := AdvanceStep(s, time, cfg);
      r == s.(lastTime := time, index := r.index, history := r.history, lastAbsPeak := r.lastAbsPeak)
  {
  }

  /** The throttling of the display refresh and the analytics pass within a frame. */
  lemma FrameRestThrottles(s1: PlaybackState, time: real, w: seq<real>, startIdx: int, cfg: Config)
    requires ValidConfig(cfg)
    ensures var t := FrameRest(s1, time, w, startIdx, cfg);
      && t.lastTime == s1.lastTime
      && (!GuiDue(s1, time) ==> t.waveY == s1.waveY && t.lastGuiUpdate == s1.lastGuiUpdate)
      && (!AnalyticsDue(s1, time, cfg) ==>
            t.bpm == s1.bpm && t.lastBpm == s1.lastBpm && t.sdnnText == s1.sdnnText && t.debug == s1.debug &&
            t.lastMetricsUpdate == s1.lastMetricsUpdate)
      && (AnalyticsDue(s1, time, cfg) ==> t.lastMetricsUpdate == time && t.debug.mad == RobustNormalize(w).mad)
      && t.signal == s1.signal && t.playing == s1.playing
  {
    var s2 := GuiStep(s1, time, w);
    if AnalyticsDue(s2, time, cfg) {
      var valid := WindowPeaks(w, cfg);
      var mad := AnalyticsMad(GuiMad(s1, time, w), w);
      AnalyticsMadIsWindowMad(s1, time, w);
      ApplyPassSpec(s2, time, valid, MetricsOf(valid, cfg.fs, cfg).bpm, startIdx, mad, cfg);
    }
  }

  /** The MAD reported by an analytics pass is the window's MAD, whether or not the display refresh ran. */
  lemma AnalyticsMadIsWindowMad(s: PlaybackState, time: real, w: seq<real>)
    ensures AnalyticsMad(GuiMad(s, time, w), w) == RobustNormalize(w).mad
  {
  }

  // ---------------------------------------------------------------------
  // Published HRV values

  /** The hook's published RMSSD (before its square root): null while the caption says 'Collecting', otherwise the value or 0. */
  function PublishedRmssdSquared(text: SdnnText, history: seq<real>): Option<real> {
    if text.Collecting? then None else Some(RmssdSquaredFromHistory(history).GetOr(0.0))
  }

  /** The hook's published pNN50: null while the caption says 'Collecting', otherwise the value or 0. */
  function PublishedPnn50(text: SdnnText, history: seq<real>): Option<real> {
    if text.Collecting? then None else Some(Pnn50FromHistory(history).GetOr(0.0))
  }

  /**
   * The published values are null exactly while collecting; with 20 or more
   * intervals outside collection they are the true statistics. Right after a
   * reload, or with a short history under the '--' caption, they read 0
   * rather than null, because only the text 'Collecting' suppresses them.
   */
  lemma PublishedSpec(text: SdnnText, history: seq<real>)
    ensures PublishedRmssdSquared(text, history) == None <==> text.Collecting?
    ensures PublishedPnn50(text, history) == None <==> text.Collecting?
    ensures !text.Collecting? && |history| >= 20 ==>
      PublishedRmssdSquared(text, history) == RmssdSquaredFromHistory(history) &&
      PublishedPnn50(text, history) == Pnn50FromHistory(history)
    ensures !text.Collecting? && |history| < 20 ==>
      PublishedRmssdSquared(text, history) == Some(0.0) && PublishedPnn50(text, history) == Some(0.0)
    ensures PublishedPnn50(text, history) != None ==> 0.0 <= PublishedPnn50(text, history).value <= 100.0
  {
    HistoryStatsSpec(history);
  }

  // ---------------------------------------------------------------------
  // The engine object

  class Playback {
    const cfg: Config
    var signal: seq<real>
    var playing: bool
    var index: real
    var lastTime: real
    var lastGuiUpdate: real
    var lastMetricsUpdate: real
    var nnHistory: seq<real>
    var lastAbsPeak: int
    var rejectedCount: nat
    var lastBpm: Option<real>
    var waveY: seq<real>
    var bpm: Option<int>
    var sdnn: Option<real>
    var sdnnText: SdnnText
    var debug: DebugStats

    /** The observable state. */
    function Snapshot(): PlaybackState
      reads this
    {
      PlaybackState(signal, playing, index, lastTime, lastGuiUpdate, lastMetricsUpdate, nnHistory, lastAbsPeak,
        rejectedCount, lastBpm, waveY, bpm, sdnn, sdnnText, debug)
    }

    predicate Valid()
      reads this
    {
      ValidConfig(cfg) && Inv(Snapshot(), cfg)
    }

    constructor (cfg: Config)
      requires ValidConfig(cfg)
      ensures this.cfg == cfg && Snapshot() == InitialState(cfg) && Valid()
    {
      this.cfg := cfg;
      signal, playing, index, lastTime := [], false, 0.0, 0.0;
      lastGuiUpdate, lastMetricsUpdate := 0.0, 0.0;
      nnHistory, lastAbsPeak, rejectedCount, lastBpm := [], -1, 0, None;
      waveY, bpm, sdnn, sdnnText := [], None, None, Placeholder;
      debug := DebugStats(cfg.windowSeconds, 0, 0, 0.0, 0, 0.0);
    }

    /** The reload effect, given the filtered recording. */
    method Load(filtered: seq<real>)
      requires Valid()
      modifies this
      ensures Snapshot() == LoadSpec(old(Snapshot()), filtered) && Valid()
    {
      LoadSpecResets(Snapshot(), filtered, cfg);
      if |filtered| > 0 {
        Reset(filtered);
      }
    }

    /** The state resets of a reload with a non-empty recording. */
    method Reset(filtered: seq<real>)
      requires |filtered| > 0
      modifies this
      ensures Snapshot() == LoadSpec(old(Snapshot()), filtered)
    {
      signal, index := filtered, 0.0;
      ResetNnState();
      ResetOutputs();
    }

    /** The NN history, its baseline peak and the rejection counter, cleared. */
    method ResetNnState()
      modifies this
      ensures Snapshot() == old(Snapshot()).(history := [], lastAbsPeak := -1, rejectedCount := 0)
    {
      nnHistory, lastAbsPeak, rejectedCount := [], -1, 0;
    }

    /** The published BPM and SDNN cleared, and the caption set to 'Initializing...'. */
    method ResetOutputs()
      modifies this
      ensures Snapshot() == old(Snapshot()).(bpm := None, sdnn := None, sdnnText := Initializing)
    {
      bpm, sdnn, sdnnText := None, None, Initializing;
    }

    method SetPlaying(p: bool)
      requires Valid()
      modifies this
      ensures Snapshot() == SetPlayingSpec(old(Snapshot()), p) && Valid()
    {
      playing := p;
    }

    /** The BPM smoothing and freeze rule. */
    method SmoothBpm(instant: Option<real>)
      modifies this
      ensures Snapshot() == SmoothStep(old(Snapshot()), instant)
    {
      if Truthy(instant) && instant.value >= BpmFloor {
        if Truthy(lastBpm) {
          var smoothed := lastBpm.value * (1.0 - Alpha) + instant.value * Alpha;
          lastBpm := Some(smoothed);
          bpm := Some(JsRound(smoothed));
        } else {
          lastBpm := instant;
          bpm := Some(JsRound(instant.value));
        }
      } else if !Truthy(lastBpm) {
        bpm := None;
      }
    }

    /** The merge of a pass's new peaks into the NN history; returns the last accepted IBI (0 if none). */
    method MergeNewPeaks(newPeaks: seq<int>) returns (lastNewIbi: real)
      requires ValidConfig(cfg)
      modifies this
      ensures Snapshot() == MergeStep(old(Snapshot()), newPeaks, cfg)
      ensures lastNewIbi == Merge(old(nnHistory), old(lastAbsPeak), old(rejectedCount), newPeaks, cfg).lastIbi
    {
      lastNewIbi := 0.0;
      if |newPeaks| > 0 {
        var history, prevPeak, rejected := nnHistory, lastAbsPeak, rejectedCount;
        if prevPeak == -1 {
          prevPeak := newPeaks[|newPeaks| - 1];
          history := SalvageFirstBatch(history, newPeaks, cfg);
        } else {
          var median := HistoryMedian(history);
          var walk := WalkNewPeaks(history, prevPeak, rejected, newPeaks, median, cfg);
          history, prevPeak, rejected, lastNewIbi := walk.history, walk.prevPeak, walk.rejectedCount, walk.lastIbi;
        }
        if |history| > MaxHistory {
          history := history[|history| - MaxHistory..];
        }
        nnHistory, lastAbsPeak, rejectedCount := history, prevPeak, rejected;
      }
    }

    /** The SDNN caption and the debug panel. */
    method UpdateCaptions(peaksInView: nat, mad: real, lastNewIbi: real)
      modifies this
      ensures Snapshot() == CaptionStep(old(Snapshot()), peaksInView, mad, lastNewIbi, cfg)
    {
      var nnCount := |nnHistory|;
      var sdnnVal := SdnnVarianceFromHistory(nnHistory);
      if sdnnVal.Some? {
        sdnn := sdnnVal;
        sdnnText := Shown(sdnnVal.value);
      } else {
        sdnnText := Collecting(nnCount);
      }
      debug := DebugStats(cfg.windowSeconds, peaksInView, nnCount, if mad > 0.0 then mad else 0.0, rejectedCount, lastNewIbi);
    }

    /** The analytics block of a frame. */
    method RunAnalytics(time: real, slice: seq<real>, startIdx: int, guiMad: real)
      requires ValidConfig(cfg)
      modifies this
      ensures Snapshot() == AnalyticsStep(old(Snapshot()), time, slice, startIdx, guiMad, cfg)
    {
      var mad := guiMad;
      if mad == 0.0 {
        mad := RobustNormalize(slice).mad;
      }
      lastMetricsUpdate := time;
      var peaks := DetectPeaks(slice, cfg.fs, cfg);
      var validIndices := peaks.validIndices;
      var metrics := ComputeMetrics(validIndices, cfg.fs, cfg);
      SmoothBpm(metrics.bpm);
      var absPeaks := AbsolutePeaks(validIndices, startIdx);
      var newPeaks := NewerThan(absPeaks, lastAbsPeak);
      var lastNewIbi := MergeNewPeaks(newPeaks);
      UpdateCaptions(|validIndices|, mad, lastNewIbi);
    }

    /** The clock update and cursor advance at the start of a frame. */
    method AdvanceClock(time: real)
      requires Valid() && time >= lastTime
      modifies this
      ensures Snapshot() == AdvanceStep(old(Snapshot()), time, cfg)
    {
      var previous := if lastTime == 0.0 then time else lastTime;
      var dt := time - previous;
      lastTime := time;
      if |signal| == 0 {
        return;
      }
      if playing {
        var samplesToAdvance := SamplesToAdvance(dt, cfg.fs);
        var next := index + samplesToAdvance;
        if next >= |signal| as real {
          index, nnHistory, lastAbsPeak := 0.0, [], -1;
        } else {
          index := next;
        }
      }
    }

    /** The zero-padded analysis window ending at the cursor, and the absolute index of its first sample. */
    method ExtractWindow() returns (slice: seq<real>, startIdx: int)
      requires 0.0 <= index < |signal| as real
      ensures slice == CursorWindow(Snapshot(), cfg) && startIdx == CursorStart(Snapshot(), cfg)
    {
      var currIdx := index.Floor;
      var winLen := WindowLength(cfg);
      startIdx := currIdx - winLen;
      if startIdx < 0 {
        slice := Zeros(-startIdx) + signal[..currIdx];
      } else {
        slice := signal[startIdx..currIdx];
      }
    }

    /** The throttled chart refresh; returns the window's MAD when it ran and 0 otherwise. */
    method RefreshDisplay(time: real, slice: seq<real>) returns (mad: real)
      modifies this
      ensures Snapshot() == GuiStep(old(Snapshot()), time, slice) && mad == GuiMad(old(Snapshot()), time, slice)
    {
      mad := 0.0;
      if time - lastGuiUpdate > GuiIntervalMs {
        var norm := RobustNormalize(slice);
        lastGuiUpdate, waveY := time, Downsample(norm.data);
        mad := norm.mad;
      }
    }

    /** The rest of a frame on a non-empty recording, over the extracted window: display refresh, analytics. */
    method Frame(time: real, slice: seq<real>, startIdx: int)
      requires ValidConfig(cfg)
      modifies this
      ensures Snapshot() == FrameRest(old(Snapshot()), time, slice, startIdx, cfg)
    {
      var mad := RefreshDisplay(time, slice);
      if time - lastMetricsUpdate > cfg.hrvUpdateMs {
        RunAnalytics(time, slice, startIdx, mad);
      }
    }

    /** One animation frame. */
    method Tick(time: real)
      requires Valid() && time >= lastTime
      modifies this
      ensures Snapshot() == TickSpec(old(Snapshot()), time, cfg) && Valid()
    {
      TickPreservesInv(Snapshot(), time, cfg);
      AdvanceClock(time);
      if |signal| == 0 {
        return;
      }
      var slice, startIdx := ExtractWindow();
      Frame(time, slice, startIdx);
    }
  }
}
