/**
 * The live-metrics hook of the wearable path: each incoming sample is fed
 * to one shared HRV calculator (as an RR interval when it carries one, as a
 * beat timestamp otherwise), and the hook publishes the sample's rate, the
 * calculator's metrics and a chart history of at most 300 points.
 */
module LiveMetrics {
  import opened Options
  import opened Bounded
  import opened DeviceTypes
  import opened HrvCalculator

  /** Chart capacity: five minutes at one sample per second. */
  const MaxHistoryPoints: nat := 300

  /** One chart point; the RMSSD is carried squared, as in `HrvStats`. */
  datatype ChartPoint = ChartPoint(time: real, bpm: real, rmssdSquared: real)

  /** What the hook publishes. */
  datatype Published = Published(bpm: real, hrv: HrvStats, history: seq<ChartPoint>)

  /** The published value initially and after a reset: rate 0, zero metrics, no history. */
  const Cleared: Published := Published(0.0, HrvStats(0.0, 0.0, 0.0, 0), [])

  /** JavaScript truthiness of an optional number: present and non-zero. */
  predicate Truthy(o: Option<real>) {
    o.Some? && o.value != 0.0
  }

  /** The calculator update for one sample. */
  function DispatchSpec(st: CalcState, sample: HeartRateSample, maxBeats: nat): CalcState {
    if Truthy(sample.rrMs) then AddRrSpec(st, sample.rrMs.value, maxBeats)
    else AddBeatSpec(st, sample.timestamp, maxBeats)
  }

  /** The published value after one sample, given the calculator's fresh metrics. */
  function PublishSpec(prev: Published, sample: HeartRateSample, hrv: HrvStats): Published {
    var point := ChartPoint(sample.timestamp, sample.bpm, hrv.rmssdSquared);
    Published(sample.bpm, hrv, PushBounded(prev.history, point, MaxHistoryPoints))
  }

  /**
   * One sample: an RR of 0 or none takes the beat path, any other RR the RR
   * path. The published rate is the sample's, the metrics are the
   * calculator's after the update, and the history gains exactly one point
   * at the end (dropping only the oldest, and only beyond 300).
   */
  lemma HandleSampleRules(st: CalcState, prev: Published, sample: HeartRateSample, maxBeats: nat)
    requires BufferInv(st, maxBeats) && |prev.history| <= MaxHistoryPoints
    ensures var st2 := DispatchSpec(st, sample, maxBeats);
      var p := PublishSpec(prev, sample, MetricsOf(st2.rrIntervals));
      && BufferInv(st2, maxBeats)
      && (!Truthy(sample.rrMs) ==> st2 == AddBeatSpec(st, sample.timestamp, maxBeats))
      && (Truthy(sample.rrMs) ==> st2.lastBeatTime == st.lastBeatTime)
      && p.bpm == sample.bpm
      && p.hrv == MetricsOf(st2.rrIntervals)
      && |p.history| <= MaxHistoryPoints
      && p.history[|p.history| - 1] == ChartPoint(sample.timestamp, sample.bpm, p.hrv.rmssdSquared)
      && (|prev.history| < MaxHistoryPoints ==> p.history[..|p.history| - 1] == prev.history)
      && (|prev.history| == MaxHistoryPoints ==> p.history[..|p.history| - 1] == prev.history[1..])
  {
    if Truthy(sample.rrMs) {
      AddRrRules(st, sample.rrMs.value, maxBeats);
    } else {
      AddBeatRules(st, sample.timestamp, maxBeats);
    }
    var point := ChartPoint(sample.timestamp, sample.bpm, MetricsOf(DispatchSpec(st, sample, maxBeats).rrIntervals).rmssdSquared);
    PushBoundedSpec(prev.history, point, MaxHistoryPoints);
  }

  class LiveMetricsHook {
    const calculator: HRVCalculator
    var metrics: Published

    predicate Valid()
      reads this, calculator
    {
      calculator.Valid() && |metrics.history| <= MaxHistoryPoints
    }

    constructor ()
      ensures fresh(calculator) && calculator.maxBeats == DefaultMaxBeats
      ensures calculator.State() == CalcState([], None) && metrics == Cleared && Valid()
    {
      calculator := new HRVCalculator(DefaultMaxBeats);
      metrics := Cleared;
    }

    method HandleSample(sample: HeartRateSample)
      requires Valid()
      modifies this, calculator
      ensures calculator.State() == DispatchSpec(old(calculator.State()), sample, calculator.maxBeats)
      ensures metrics == PublishSpec(old(metrics), sample, MetricsOf(calculator.rrIntervals))
      ensures Valid()
    {
      HandleSampleRules(calculator.State(), metrics, sample, calculator.maxBeats);
      if Truthy(sample.rrMs) {
        calculator.AddRRInterval(sample.rrMs.value, sample.timestamp);
      } else {
        calculator.AddBeat(sample.timestamp);
      }
      var hrv := calculator.GetMetrics();
      var newPoint := ChartPoint(sample.timestamp, sample.bpm, hrv.rmssdSquared);
      var newHistory := metrics.history + [newPoint];
      if |newHistory| > MaxHistoryPoints {
        newHistory := newHistory[1..];
      }
      metrics := Published(sample.bpm, hrv, newHistory);
    }

    method Reset()
      requires Valid()
      modifies this, calculator
      ensures calculator.State() == CalcState([], None) && metrics == Cleared && Valid()
    {
      calculator.Reset();
      metrics := Cleared;
    }
  }
}
