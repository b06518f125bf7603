/**
 * Grading of the displayed vital signs: the heart rate against a
 * mode-dependent normal band and the SDNN against fixed bands, each with a
 * colour, a label and an optional warning.
 */
module VitalStatus {
  import opened Options

  datatype VitalColor = Ok | Warn | Danger | Muted

  datatype UserMode = Resting | Active

  datatype BpmThresholds = BpmThresholds(low: real, high: real)

  datatype SdnnThresholds = SdnnThresholds(danger: real, warn: real, ok: real, high: real, invalid: real)

  datatype Thresholds = Thresholds(bpm: BpmThresholds, sdnn: SdnnThresholds)

  datatype Status = Status(bpmColor: VitalColor, bpmLabel: string, sdnnColor: VitalColor, sdnnLabel: string,
                           warnings: seq<string>)

  /** The SDNN bands are the same in both modes. */
  const SdnnBands: SdnnThresholds := SdnnThresholds(20.0, 50.0, 100.0, 200.0, 500.0)

  function VitalThresholds(mode: UserMode): Thresholds {
    match mode
    case Resting => Thresholds(BpmThresholds(50.0, 90.0), SdnnBands)
    case Active => Thresholds(BpmThresholds(60.0, 160.0), SdnnBands)
  }

  const SignalInvalid: string := "signal_invalid"
  const HrvInvalid: string := "hrv_invalid"

  /** The rate part: colour, label and the warning it raises, if any. */
  datatype Grade = Grade(color: VitalColor, text: string, warning: Option<string>)

  function GradeBpm(bpm: Option<real>, cfg: Thresholds): Grade {
    if bpm == None || bpm.value == 0.0 then Grade(Muted, "Analyzing...", None)
    else if bpm.value > 240.0 || bpm.value < 30.0 then Grade(Muted, "Inv", Some(SignalInvalid))
    else if bpm.value < cfg.bpm.low then Grade(Danger, "Low", None)
    else if bpm.value > cfg.bpm.high then Grade(if bpm.value > 100.0 then Danger else Warn, "High", None)
    else Grade(Ok, "Normal", None)
  }

  function GradeSdnn(sdnn: Option<real>, nnCount: int, cfg: Thresholds): Grade {
    if nnCount < 30 || sdnn == None then Grade(Muted, "Collecting...", None)
    else if sdnn.value < 0.0 || sdnn.value > 500.0 then Grade(Muted, "Inv", Some(HrvInvalid))
    else if sdnn.value >= cfg.sdnn.ok then Grade(Ok, "High (Good)", None)
    else if sdnn.value >= cfg.sdnn.warn then Grade(Ok, "Normal", None)
    else if sdnn.value >= cfg.sdnn.danger then Grade(Warn, "Low", None)
    else Grade(Danger, "Very Low", None)
  }

  function WarningList(w: Option<string>): seq<string> {
    if w.Some? then [w.value] else []
  }

  /** `getVitalStatus`; NaN rates are not representable here. */
  function GetVitalStatus(bpm: Option<real>, sdnn: Option<real>, mode: UserMode, nnCount: int): Status {
    var cfg := VitalThresholds(mode);
    var b := GradeBpm(bpm, cfg);
    var s := GradeSdnn(sdnn, nnCount, cfg);
    Status(b.color, b.text, s.color, s.text, WarningList(b.warning) + WarningList(s.warning))
  }

  /**
   * The rate rules: no reading (or 0) is 'Analyzing...'; outside [30, 240] is
   * invalid with a signal warning; otherwise below the mode's low bound is a
   * danger 'Low', above its high bound a 'High' that is danger above 100 and
   * warn otherwise, and anything else an ok 'Normal'.
   */
  lemma BpmRules(bpm: Option<real>, sdnn: Option<real>, mode: UserMode, nnCount: int)
    ensures var st := GetVitalStatus(bpm, sdnn, mode, nnCount);
      var low := VitalThresholds(mode).bpm.low;
      var high := VitalThresholds(mode).bpm.high;
      && ((bpm == None || bpm.value == 0.0) ==>
            st.bpmColor == Muted && st.bpmLabel == "Analyzing..." && SignalInvalid !in st.warnings)
      && (bpm.Some? && bpm.value != 0.0 && (bpm.value > 240.0 || bpm.value < 30.0) ==>
            st.bpmColor == Muted && st.bpmLabel == "Inv" && st.warnings[0] == SignalInvalid)
      && (bpm.Some? && 30.0 <= bpm.value <= 240.0 ==>
            SignalInvalid !in st.warnings &&
            (bpm.value < low ==> st.bpmColor == Danger && st.bpmLabel == "Low") &&
            (bpm.value > high ==> st.bpmLabel == "High" && (st.bpmColor == Danger <==> bpm.value > 100.0) &&
                                  (st.bpmColor == Warn <==> bpm.value <= 100.0)) &&
            (low <= bpm.value <= high ==> st.bpmColor == Ok && st.bpmLabel == "Normal"))
  {
  }

  /** In active mode a high rate (above 160) is always shown as danger. */
  lemma ActiveHighIsDanger(bpm: real, sdnn: Option<real>, nnCount: int)
    requires 160.0 < bpm <= 240.0
    ensures GetVitalStatus(Some(bpm), sdnn, Active, nnCount).bpmColor == Danger
    ensures GetVitalStatus(Some(bpm), sdnn, Active, nnCount).bpmLabel == "High"
  {
  }

  /**
   * The SDNN rules: fewer than 30 intervals or no value is 'Collecting...'
   * whatever the value; outside [0, 500] is invalid with an HRV warning;
   * otherwise the bands at 100, 50 and 20 ms give 'High (Good)', 'Normal',
   * 'Low' and 'Very Low'.
   */
  lemma SdnnRules(bpm: Option<real>, sdnn: Option<real>, mode: UserMode, nnCount: int)
    ensures var st := GetVitalStatus(bpm, sdnn, mode, nnCount);
      && ((nnCount < 30 || sdnn == None) ==>
            st.sdnnColor == Muted && st.sdnnLabel == "Collecting..." && HrvInvalid !in st.warnings)
      && (nnCount >= 30 && sdnn.Some? && (sdnn.value < 0.0 || sdnn.value > 500.0) ==>
            st.sdnnColor == Muted && st.sdnnLabel == "Inv" && st.warnings[|st.warnings| - 1] == HrvInvalid)
      && (nnCount >= 30 && sdnn.Some? && 0.0 <= sdnn.value <= 500.0 ==>
            HrvInvalid !in st.warnings &&
            (sdnn.value >= 100.0 ==> st.sdnnColor == Ok && st.sdnnLabel == "High (Good)") &&
            (50.0 <= sdnn.value < 100.0 ==> st.sdnnColor == Ok && st.sdnnLabel == "Normal") &&
            (20.0 <= sdnn.value < 50.0 ==> st.sdnnColor == Warn && st.sdnnLabel == "Low") &&
            (sdnn.value < 20.0 ==> st.sdnnColor == Danger && st.sdnnLabel == "Very Low"))
  {
  }

  /** The SDNN grade does not depend on the mode. */
  lemma SdnnModeIndependent(bpm: Option<real>, sdnn: Option<real>, nnCount: int)
    ensures GetVitalStatus(bpm, sdnn, Resting, nnCount).sdnnColor == GetVitalStatus(bpm, sdnn, Active, nnCount).sdnnColor
    ensures GetVitalStatus(bpm, sdnn, Resting, nnCount).sdnnLabel == GetVitalStatus(bpm, sdnn, Active, nnCount).sdnnLabel
  {
  }

  /**
   * At most two warnings, each raised by its own rule, with the signal
   * warning always ahead of the HRV warning; the warnings are empty exactly
   * when neither input is out of range.
   */
  lemma WarningsRules(bpm: Option<real>, sdnn: Option<real>, mode: UserMode, nnCount: int)
    ensures var w := GetVitalStatus(bpm, sdnn, mode, nnCount).warnings;
      var badBpm := bpm.Some? && bpm.value != 0.0 && (bpm.value > 240.0 || bpm.value < 30.0);
      var badSdnn := nnCount >= 30 && sdnn.Some? && (sdnn.value < 0.0 || sdnn.value > 500.0);
      && |w| <= 2
      && (SignalInvalid in w <==> badBpm)
      && (HrvInvalid in w <==> badSdnn)
      && (w == [] <==> !badBpm && !badSdnn)
      && (|w| == 2 ==> w == [SignalInvalid, HrvInvalid])
  {
    assert SignalInvalid != HrvInvalid;
  }

  /** `getStatusColorClass`. */
  function GetStatusColorClass(color: VitalColor): string {
    match color
    case Ok => "text-green-500"
    case Warn => "text-yellow-500"
    case Danger => "text-red-500"
    case Muted => "text-gray-400"
  }

  /** Distinct colours get distinct classes. */
  lemma ColorClassInjective(a: VitalColor, b: VitalColor)
    ensures GetStatusColorClass(a) == GetStatusColorClass(b) <==> a == b
  {
    if a != b {
      var ca := GetStatusColorClass(a);
      var cb := GetStatusColorClass(b);
      assert ca[5] != cb[5] || ca[7] != cb[7];
    }
  }
}
