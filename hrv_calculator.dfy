/**
 * The discrete-event HRV calculator of the live (wearable) path: a bounded
 * FIFO of RR intervals fed either with RR values or with beat timestamps,
 * and on-demand RMSSD, SDNN and pNN50 over the whole buffer.
 *
 * Square roots are not modelled: `HrvStats` carries RMSSD and SDNN squared,
 * before the root and the one-decimal rounding of the source. pNN50 has no
 * root, and carries the source's one-decimal rounding.
 */
module HrvCalculator {
  import opened Options
  import opened Stats
  import opened Bounded

  /** Buffer capacity when none is given. */
  const DefaultMaxBeats: nat := 256
  /** The physiological range an RR interval must fall into, in ms. */
  const RrMinMs: real := 300.0
  const RrMaxMs: real := 2000.0

  /** `getMetrics` before square roots: RMSSD², SDNN² (sample variance), pNN50 to 0.1 %, and the interval count. */
  datatype HrvStats = HrvStats(rmssdSquared: real, sdnnSquared: real, pnn50: real, sampleCount: nat)

  /** The calculator's fields. */
  datatype CalcState = CalcState(rrIntervals: seq<real>, lastBeatTime: Option<real>)

  predicate AcceptsRr(rrMs: real) {
    !(rrMs < RrMinMs || rrMs > RrMaxMs)
  }

  /** The buffer keeps at most maxBeats intervals, all within the physiological range. */
  predicate BufferInv(st: CalcState, maxBeats: nat) {
    && |st.rrIntervals| <= maxBeats
    && forall i :: 0 <= i < |st.rrIntervals| ==> AcceptsRr(st.rrIntervals[i])
  }

  function AddRrSpec(st: CalcState, rrMs: real, maxBeats: nat): CalcState {
    if !AcceptsRr(rrMs) then st else st.(rrIntervals := PushBounded(st.rrIntervals, rrMs, maxBeats))
  }

  function AddBeatSpec(st: CalcState, timestamp: real, maxBeats: nat): CalcState {
    var fed := if st.lastBeatTime.Some? then AddRrSpec(st, timestamp - st.lastBeatTime.value, maxBeats) else st;
    fed.(lastBeatTime := Some(timestamp))
  }

  function ResetSpec(st: CalcState): CalcState {
    CalcState([], None)
  }

  /** `Math.round(x * 10) / 10`. */
  function Round1(x: real): real {
    JsRound(x * 10.0) as real / 10.0
  }

  /** The unrounded pNN50 percentage over n - 1 successive differences. */
  function Pnn50Of(rr: seq<real>): real
    requires |rr| >= 2
  {
    (Count50(rr) as real / ((|rr| - 1) as real)) * 100.0
  }

  /** The metrics over the whole buffer; all zero below two intervals. */
  function MetricsOf(rr: seq<real>): HrvStats {
    if |rr| < 2 then HrvStats(0.0, 0.0, 0.0, |rr|)
    else
      var n1 := (|rr| - 1) as real;
      HrvStats(SumSqSuccDiff(rr) / n1, SumSqDev(rr, Mean(rr)) / n1, Round1(Pnn50Of(rr)), |rr|)
  }

  /**
   * An RR outside [300, 2000] changes nothing. An accepted one is appended at
   * the end; only when that overflows the capacity is the oldest dropped, so
   * the buffer stays within capacity and in range, and it keeps the newest
   * value. The beat timestamp is never touched.
   */
  lemma AddRrRules(st: CalcState, rrMs: real, maxBeats: nat)
    requires BufferInv(st, maxBeats)
    ensures var t := AddRrSpec(st, rrMs, maxBeats);
      && BufferInv(t, maxBeats)
      && t.lastBeatTime == st.lastBeatTime
      && (!AcceptsRr(rrMs) ==> t == st)
      && (AcceptsRr(rrMs) && |st.rrIntervals| < maxBeats ==> t.rrIntervals == st.rrIntervals + [rrMs])
      && (AcceptsRr(rrMs) && |st.rrIntervals| == maxBeats ==> t.rrIntervals == (st.rrIntervals + [rrMs])[1..])
      && (AcceptsRr(rrMs) && maxBeats > 0 ==> t.rrIntervals[|t.rrIntervals| - 1] == rrMs)
  {
    AddRrKeepsInv(st, rrMs, maxBeats);
    if AcceptsRr(rrMs) {
      PushBoundedSpec(st.rrIntervals, rrMs, maxBeats);
    }
  }

  /** Every interval the buffer keeps was in range when it was added. */
  lemma AddRrKeepsInv(st: CalcState, rrMs: real, maxBeats: nat)
    requires BufferInv(st, maxBeats)
    ensures BufferInv(AddRrSpec(st, rrMs, maxBeats), maxBeats)
  {
    if AcceptsRr(rrMs) {
      var rr := st.rrIntervals;
      var b := rr + [rrMs];
      forall j | 0 <= j < |b|
        ensures AcceptsRr(b[j])
      {
        if j < |rr| {
          assert b[j] == rr[j];
        }
      }
      if |b| > maxBeats {
        var d := b[1..];
        forall i | 0 <= i < |d|
          ensures AcceptsRr(d[i])
        {
          assert d[i] == b[i + 1];
        }
      }
    }
  }

  /**
   * The first beat only records its timestamp; each later beat feeds the
   * gap since the previous one through the RR path. The timestamp is
   * recorded even when that gap is rejected.
   */
  lemma AddBeatRules(st: CalcState, timestamp: real, maxBeats: nat)
    requires BufferInv(st, maxBeats)
    ensures var t := AddBeatSpec(st, timestamp, maxBeats);
      && BufferInv(t, maxBeats)
      && t.lastBeatTime == Some(timestamp)
      && (st.lastBeatTime == None ==> t.rrIntervals == st.rrIntervals)
      && (st.lastBeatTime.Some? ==>
            t.rrIntervals == AddRrSpec(st, timestamp - st.lastBeatTime.value, maxBeats).rrIntervals)
      && (st.lastBeatTime.Some? && !AcceptsRr(timestamp - st.lastBeatTime.value) ==> t.rrIntervals == st.rrIntervals)
  {
    if st.lastBeatTime.Some? {
      AddRrRules(st, timestamp - st.lastBeatTime.value, maxBeats);
    }
  }

  /** After a reset the buffer is empty and the next beat only records its time. */
  lemma ResetThenBeat(st: CalcState, timestamp: real, maxBeats: nat)
    ensures BufferInv(ResetSpec(st), maxBeats)
    ensures AddBeatSpec(ResetSpec(st), timestamp, maxBeats) == CalcState([], Some(timestamp))
  {
  }

  lemma Round1Bounds(x: real)
    requires 0.0 <= x <= 100.0
    ensures 0.0 <= Round1(x) <= 100.0
  {
    var k := JsRound(x * 10.0);
    assert 0 <= k <= 1000;
  }

  /**
   * Below two intervals every metric is 0 and the count is the buffer size.
   * Otherwise the count is n, RMSSD² and SDNN² are non-negative and each is 0
   * exactly when all intervals are equal, and pNN50 lies in [0, 100].
   */
  lemma MetricsSpec(rr: seq<real>)
    ensures var m := MetricsOf(rr);
      && m.sampleCount == |rr|
      && (|rr| < 2 ==> m.rmssdSquared == 0.0 && m.sdnnSquared == 0.0 && m.pnn50 == 0.0)
      && m.rmssdSquared >= 0.0 && m.sdnnSquared >= 0.0
      && 0.0 <= m.pnn50 <= 100.0
      && (|rr| >= 2 ==> (m.rmssdSquared == 0.0 <==> IsConstant(rr)))
      && (|rr| >= 2 ==> (m.sdnnSquared == 0.0 <==> IsConstant(rr)))
  {
    if |rr| >= 2 {
      var n1 := (|rr| - 1) as real;
      SumSqSuccDiffNonNegative(rr);
      SumSqSuccDiffZero(rr);
      var mean := Mean(rr);
      SumSqDevNonNegative(rr, mean);
      SumSqDevZero(rr, mean);
      if IsConstant(rr) {
        SumOfConstant(rr, rr[0]);
        assert mean == rr[0];
      }
      Count50Bound(rr);
      DivRatioBound(Count50(rr) as real, n1);
      Round1Bounds(Pnn50Of(rr));
    }
  }

  /** Identical intervals give all-zero metrics. */
  lemma ConstantMetrics(rr: seq<real>)
    requires IsConstant(rr)
    ensures MetricsOf(rr).rmssdSquared == 0.0 && MetricsOf(rr).sdnnSquared == 0.0 && MetricsOf(rr).pnn50 == 0.0
  {
    MetricsSpec(rr);
    if |rr| >= 2 {
      Count50OfConstant(rr);
    }
  }

  /** A monotone square: for non-negative values, order is order of squares. */
  lemma SqMonotone(a: real, b: real)
    requires 0.0 <= a && 0.0 <= b
    ensures a < b <==> Sq(a) < Sq(b)
  {
    if a < b {
      MulPositive(b - a, b + a, Sq(b) - Sq(a));
    } else if b < a {
      MulPositive(a - b, a + b, Sq(a) - Sq(b));
    }
  }

  /**
   * The published RMSSD is the one-decimal rounding of a root r of RMSSD²;
   * it reads below 20 ms exactly when RMSSD² is below 19.95² = 398.0025.
   */
  lemma RoundedRootBelow20(rmssdSquared: real, r: real)
    requires r >= 0.0 && Sq(r) == rmssdSquared
    ensures Round1(r) < 20.0 <==> rmssdSquared < 398.0025
  {
    SqMonotone(r, 19.95);
    assert Sq(19.95) == 398.0025;
  }

  class HRVCalculator {
    var rrIntervals: seq<real>
    const maxBeats: nat
    var lastBeatTime: Option<real>

    function State(): CalcState
      reads this
    {
      CalcState(rrIntervals, lastBeatTime)
    }

    predicate Valid()
      reads this
    {
      BufferInv(State(), maxBeats)
    }

    constructor (maxBeats: nat)
      ensures this.maxBeats == maxBeats && State() == CalcState([], None) && Valid()
    {
      rrIntervals := [];
      this.maxBeats := maxBeats;
      lastBeatTime := None;
    }

    method AddBeat(timestamp: real)
      requires Valid()
      modifies this
      ensures State() == AddBeatSpec(old(State()), timestamp, maxBeats) && Valid()
    {
      AddBeatRules(State(), timestamp, maxBeats);
      if lastBeatTime.Some? {
        var rr := timestamp - lastBeatTime.value;
        AddRRInterval(rr, timestamp);
      }
      lastBeatTime := Some(timestamp);
    }

    /** The timestamp argument is accepted and ignored, as in the source. */
    method AddRRInterval(rrMs: real, timestamp: real)
      requires Valid()
      modifies this
      ensures State() == AddRrSpec(old(State()), rrMs, maxBeats) && Valid()
    {
      AddRrRules(State(), rrMs, maxBeats);
      if rrMs < RrMinMs || rrMs > RrMaxMs {
        return;
      }
      rrIntervals := rrIntervals + [rrMs];
      if |rrIntervals| > maxBeats {
        rrIntervals := rrIntervals[1..];
      }
    }

    /** The metrics over the buffer; the successive-difference sums are accumulated in one loop. */
    method GetMetrics() returns (m: HrvStats)
      ensures m == MetricsOf(rrIntervals)
    {
      var rr := rrIntervals;
      var n := |rr|;
      if n < 2 {
        return HrvStats(0.0, 0.0, 0.0, n);
      }
      var sum := Sum(rr);
      var mean := sum / (n as real);
      var variance := SumSqDev(rr, mean) / ((n - 1) as real);

      var sumSquaredDiffs := 0.0;
      var nn50Count: nat := 0;
      var i := 1;
      while i < n
        invariant 1 <= i <= n
        invariant sumSquaredDiffs == SumSqSuccDiff(rr[..i])
        invariant nn50Count == Count50(rr[..i])
      {
        var diff := rr[i] - rr[i - 1];
        assert rr[..i + 1][..i] == rr[..i];
        sumSquaredDiffs := sumSquaredDiffs + Sq(diff);
        if Abs(diff) > 50.0 {
          nn50Count := nn50Count + 1;
        }
        i := i + 1;
      }
      assert rr[..i] == rr;
      var pnn50 := (nn50Count as real / ((n - 1) as real)) * 100.0;
      m := HrvStats(sumSquaredDiffs / ((n - 1) as real), variance, Round1(pnn50), n);
    }

    method Reset()
      modifies this
      ensures State() == ResetSpec(old(State())) && Valid()
    {
      rrIntervals := [];
      lastBeatTime := None;
    }
  }
}
