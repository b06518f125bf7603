/**
 * The rule engine that turns the current HRV reading and a training goal
 * into a metronome pattern.
 */
module BeatGenerator {
  import opened Options
  import opened Stats
  import opened HrvCalculator

  datatype TrainingGoal = Relax | Activate | Balance

  datatype SchedulePoint = SchedulePoint(timeMinute: nat, bpm: nat)

  datatype BeatPattern = BeatPattern(
    baseBpm: nat,
    durationMinutes: nat,
    accents: seq<nat>,
    bpmSchedule: Option<seq<SchedulePoint>>,
    description: string)

  /** The HRV reading as the calculator publishes it (ms, ms, %, count). */
  datatype HrvMetrics = HrvMetrics(rmssd: real, sdnn: real, pnn50: real, sampleCount: nat)

  /** RMSSD below this counts as stressed. */
  const StressedRmssdMs: real := 20.0

  /** 4/4 with the first beat accented. */
  const FourFour: seq<nat> := [1, 0, 0, 0]

  /** The ramp for a stressed relax session: 65 BPM easing to 55 over five minutes. */
  const RelaxRamp: seq<SchedulePoint> := [SchedulePoint(0, 65), SchedulePoint(2, 60), SchedulePoint(5, 55)]

  /** The descriptions shown with each pattern (the activation text begins with a space). */
  const StressedRelaxText: string := "Detected high stress. Starting gently at 65 BPM and slowing down to 55 BPM to guide relaxation."
  const CalmRelaxText: string := "Your HRV is good. Maintaining a slow, steady 55 BPM for deep relaxation."
  const ActivateText: string := " upbeat tempo at 90 BPM to boost energy and focus."
  const BalanceText: string := "Steady 60 BPM to promote heart coherence and balance."

  function GenerateBeatPatternFromHrv(metrics: HrvMetrics, goal: TrainingGoal): BeatPattern {
    var rmssd := metrics.rmssd;
    match goal
    case Relax =>
      if rmssd < StressedRmssdMs then
        BeatPattern(65, 5, FourFour, Some(RelaxRamp), StressedRelaxText)
      else
        BeatPattern(55, 5, FourFour, None, CalmRelaxText)
    case Activate =>
      BeatPattern(90, 3, FourFour, None, ActivateText)
    case Balance =>
      BeatPattern(60, 5, FourFour, None, BalanceText)
  }

  /** A schedule whose minutes strictly increase while its rates strictly decrease. */
  predicate IsRampDown(s: seq<SchedulePoint>) {
    forall i, j :: 0 <= i < j < |s| ==> s[i].timeMinute < s[j].timeMinute && s[i].bpm > s[j].bpm
  }

  /**
   * The goal table: a stressed relax session (RMSSD below 20) starts at 65
   * and ramps down to 55 over five minutes; a calm one holds 55; activation
   * is 90 for three minutes; balance 60 for five.
   */
  lemma GoalRules(metrics: HrvMetrics)
    ensures var p := GenerateBeatPatternFromHrv(metrics, Relax);
      && (metrics.rmssd < 20.0 ==>
            p.baseBpm == 65 && p.bpmSchedule == Some(RelaxRamp) && p.durationMinutes == 5 && p.description == StressedRelaxText)
      && (metrics.rmssd >= 20.0 ==>
            p.baseBpm == 55 && p.bpmSchedule == None && p.durationMinutes == 5 && p.description == CalmRelaxText)
    ensures var p := GenerateBeatPatternFromHrv(metrics, Activate);
      p.baseBpm == 90 && p.durationMinutes == 3 && p.bpmSchedule == None && p.description == ActivateText
    ensures var p := GenerateBeatPatternFromHrv(metrics, Balance);
      p.baseBpm == 60 && p.durationMinutes == 5 && p.bpmSchedule == None && p.description == BalanceText
  {
  }

  /**
   * Every pattern is in 4/4 with a first-beat accent, has a base rate of 55,
   * 60, 65 or 90, and any schedule starts at minute 0 at the base rate, ramps
   * down, and ends within the session.
   */
  lemma PatternShape(metrics: HrvMetrics, goal: TrainingGoal)
    ensures GenerateBeatPatternFromHrv(metrics, goal).accents == [1, 0, 0, 0]
    ensures GenerateBeatPatternFromHrv(metrics, goal).baseBpm in {55, 60, 65, 90}
    ensures GenerateBeatPatternFromHrv(metrics, goal).durationMinutes in {3, 5}
    ensures var p := GenerateBeatPatternFromHrv(metrics, goal);
      p.bpmSchedule.Some? ==>
        var s := p.bpmSchedule.value;
        && |s| > 0 && s[0] == SchedulePoint(0, p.baseBpm) && IsRampDown(s)
        && s[|s| - 1].timeMinute <= p.durationMinutes
  {
    var p := GenerateBeatPatternFromHrv(metrics, goal);
    assert p.accents == FourFour;
    match goal
    case Relax =>
      if metrics.rmssd < StressedRmssdMs {
        assert p.bpmSchedule == Some(RelaxRamp) && p.baseBpm == 65 && p.durationMinutes == 5;
        RelaxRampShape();
      } else {
        assert p.bpmSchedule == None && p.baseBpm == 55 && p.durationMinutes == 5;
      }
    case Activate =>
      assert p.bpmSchedule == None && p.baseBpm == 90 && p.durationMinutes == 3;
    case Balance =>
      assert p.bpmSchedule == None && p.baseBpm == 60 && p.durationMinutes == 5;
  }

  /** The relax ramp starts at minute 0 at 65 BPM, ramps down and ends at minute 5. */
  lemma RelaxRampShape()
    ensures |RelaxRamp| == 3 && RelaxRamp[0] == SchedulePoint(0, 65) && RelaxRamp[2].timeMinute == 5
    ensures IsRampDown(RelaxRamp)
  {
  }

  /** RMSSD is the only metric consulted. */
  lemma OnlyRmssdConsulted(a: HrvMetrics, b: HrvMetrics, goal: TrainingGoal)
    requires a.rmssd == b.rmssd
    ensures GenerateBeatPatternFromHrv(a, goal) == GenerateBeatPatternFromHrv(b, goal)
  {
  }

  /**
   * Fed from the calculator, whose RMSSD is the one-decimal rounding of a
   * root of RMSSD², a relax session ramps exactly when RMSSD² is below
   * 398.0025 (19.95 ms squared).
   */
  lemma RelaxRampFromStats(st: HrvStats, root: real, rest: HrvMetrics)
    requires root >= 0.0 && Sq(root) == st.rmssdSquared
    ensures var m := rest.(rmssd := Round1(root));
      GenerateBeatPatternFromHrv(m, Relax).bpmSchedule.Some? <==> st.rmssdSquared < 398.0025
  {
    RoundedRootBelow20(st.rmssdSquared, root);
  }
}
