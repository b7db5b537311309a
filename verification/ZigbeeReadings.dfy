/** The readings of a report one by one: when baseline and attribute part, because
    a missing reading was taken, and when they agree again. */
module ZigbeeReadings {
  import opened SmartTag
  import opened ZigbeeReporting

  datatype Reading = TemperatureReading | HumidityReading | PressureReading | BatteryReading

  function SensorOf(r: Reading): Sensor {
    match r
    case TemperatureReading => TempRh
    case HumidityReading => TempRh
    case PressureReading => Pressure
    case BatteryReading => Battery
  }

  /** A reading as the attributes would show it: as measured, as committed to the
      baseline, and as they do show it. */
  function Measured(r: Reading, s: Sample): int {
    match r
    case TemperatureReading => s.temperature
    case HumidityReading => s.humidity
    case PressureReading => KiloPascal(s.pressure)
    case BatteryReading => HalfPercent(s.batteryPercent)
  }

  function Committed(r: Reading, b: Baseline): int {
    match r
    case TemperatureReading => b.temperature
    case HumidityReading => b.humidity
    case PressureReading => KiloPascal(b.pressure)
    case BatteryReading => HalfPercent(b.batteryPercent)
  }

  function Shown(r: Reading, a: Attributes): int {
    match r
    case TemperatureReading => a.temperature
    case HumidityReading => a.humidity
    case PressureReading => a.pressureKPa
    case BatteryReading => a.remaining
  }

  /** How far a sample is from the baseline, and how far is worth a report. */
  function Moved(r: Reading, b: Baseline, s: Sample): nat {
    match r
    case TemperatureReading => Abs(s.temperature - b.temperature)
    case HumidityReading => Abs(s.humidity - b.humidity)
    case PressureReading => Abs(s.pressure - b.pressure)
    case BatteryReading => Abs(s.batteryPercent - b.batteryPercent)
  }

  function Delta(r: Reading, c: Config): nat {
    match r
    case TemperatureReading => c.tempDelta
    case HumidityReading => c.humidityDelta
    case PressureReading => c.pressureDelta
    case BatteryReading => BATTERY_DELTA_PERCENT
  }

  predicate AgreesOn(r: Reading, b: Baseline, a: Attributes) {
    Shown(r, a) == Committed(r, b)
  }

  lemma AgreesOnAll(b: Baseline, a: Attributes)
    ensures Agrees(b, a) <==> a.tag == b.tag && forall r :: AgreesOn(r, b, a)
  {
    if forall r :: AgreesOn(r, b, a) {
      assert AgreesOn(TemperatureReading, b, a) && AgreesOn(HumidityReading, b, a);
      assert AgreesOn(PressureReading, b, a) && AgreesOn(BatteryReading, b, a);
    }
  }

  /** The publication commits the reading to the baseline. */
  predicate Touches(r: Reading, b: Baseline, step: Step)
    requires b.lastReport < UINT32_LIMIT
  {
    step.Published? &&
    (!b.valid || IntervalElapsed(b, step.sample, step.config)
     || (SensorOf(r) in step.sample.valid && Moved(r, b, step.sample) >= Delta(r, step.config)))
  }

  /** What one step does to one reading. */
  lemma StepOnReading(r: Reading, b: Baseline, a: Attributes, step: Step)
    requires b.lastReport < UINT32_LIMIT
    ensures var (b', a') := Take(b, a, step);
      if Touches(r, b, step) then
        AgreesOn(r, b', a') <==> SensorOf(r) in step.sample.valid || Measured(r, step.sample) == Shown(r, a)
      else Shown(r, a') == Shown(r, a) && Committed(r, b') == Committed(r, b)
  {
    hide KiloPascal, HalfPercent;
  }

  ghost predicate Timed(steps: seq<Step>) {
    forall k :: 0 <= k < |steps| && steps[k].Published? ==> steps[k].sample.timestamp < UINT32_LIMIT
  }

  ghost predicate TouchesAt(r: Reading, b: Baseline, a: Attributes, steps: seq<Step>, k: nat)
    requires b.lastReport < UINT32_LIMIT && Timed(steps) && k < |steps|
  {
    Touches(r, TakeAll(b, a, steps[..k]).0, steps[k])
  }

  /** While no publication touches a reading, it neither parts nor heals: a valid
      reading within its delta of the baseline is not sent, right or wrong as the
      baseline may be. */
  lemma {:induction false} UntouchedStays(r: Reading, b: Baseline, a: Attributes, steps: seq<Step>, from: nat)
    requires b.lastReport < UINT32_LIMIT && Timed(steps) && from <= |steps|
    requires forall k :: from <= k < |steps| ==> !TouchesAt(r, b, a, steps, k)
    ensures var (b0, a0) := TakeAll(b, a, steps[..from]);
      var (b1, a1) := TakeAll(b, a, steps);
      Shown(r, a1) == Shown(r, a0) && Committed(r, b1) == Committed(r, b0)
    decreases |steps|
  {
    if from == |steps| {
      assert steps[..from] == steps;
    } else {
      var n := |steps| - 1;
      assert steps[..n][..from] == steps[..from];
      forall k | from <= k < n ensures !TouchesAt(r, b, a, steps[..n], k) {
        assert steps[..n][..k] == steps[..k];
        assert !TouchesAt(r, b, a, steps, k);
      }
      UntouchedStays(r, b, a, steps[..n], from);
      var (b0, a0) := TakeAll(b, a, steps[..n]);
      assert !TouchesAt(r, b, a, steps, n);
      hide Touches, Take, Shown, Committed;
      StepOnReading(r, b0, a0, steps[n]);
    }
  }

  /** Over any run of publications, with any readings missing, and forced reports:
      the last publication that touched a reading decides. Baseline and attribute
      agree on it if and only if the reading was valid then, or happened to be what
      the attribute showed. */
  lemma LastTouchDecides(r: Reading, b: Baseline, a: Attributes, steps: seq<Step>, k: nat)
    requires b.lastReport < UINT32_LIMIT && Timed(steps) && k < |steps| && TouchesAt(r, b, a, steps, k)
    requires forall j :: k < j < |steps| ==> !TouchesAt(r, b, a, steps, j)
    ensures var (b', a') := TakeAll(b, a, steps);
      AgreesOn(r, b', a') <==>
        SensorOf(r) in steps[k].sample.valid || Measured(r, steps[k].sample) == Shown(r, TakeAll(b, a, steps[..k]).1)
  {
    UntouchedStays(r, b, a, steps, k + 1);
    assert steps[..k + 1][..k] == steps[..k];
    var (b0, a0) := TakeAll(b, a, steps[..k]);
    hide Touches, Take, Shown, Committed, Measured;
    StepOnReading(r, b0, a0, steps[k]);
  }

  /** So a reading that has parted agrees again at the latest with the first valid
      reading of a full report, which is due within the report interval. */
  lemma HealsWithFullReport(r: Reading, b: Baseline, a: Attributes, steps: seq<Step>)
    requires b.lastReport < UINT32_LIMIT && Timed(steps) && steps != [] && steps[|steps| - 1].Published?
    requires var before, last := TakeAll(b, a, steps[..|steps| - 1]).0, steps[|steps| - 1];
      SensorOf(r) in last.sample.valid && (!before.valid || IntervalElapsed(before, last.sample, last.config))
    ensures var (b', a') := TakeAll(b, a, steps);
      AgreesOn(r, b', a') && Shown(r, a') == Measured(r, steps[|steps| - 1].sample)
  {
    hide KiloPascal, HalfPercent;
  }
}
