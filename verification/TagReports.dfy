/** What a tag reports and what it has counted, as functions of the history alone:
    the samples and counter resets since boot, and the statistics stored before. */
module TagReports {
  import opened SmartTag
  import opened MotionClassifier
  import opened MotionManager
  import opened Alarms
  import opened AppState
  import opened StatusTraces
  import ShockDetector
  import MotionTraces
  import MotionReports
  import Modular

  // ---- Histories, without the tag ----

  /** What the motion manager sees of a history. */
  function Motions(inputs: seq<Input>): (trace: seq<MotionTraces.Input>)
    ensures |trace| == |inputs|
  {
    if inputs == [] then []
    else
      var last := inputs[|inputs| - 1];
      Motions(inputs[..|inputs| - 1])
      + [if last.Sampled? then MotionTraces.Sampled(last.sample) else MotionTraces.TamperCleared]
  }

  lemma {:induction false} MotionsAt(inputs: seq<Input>, k: nat)
    requires k < |inputs|
    ensures Motions(inputs)[k]
      == if inputs[k].Sampled? then MotionTraces.Sampled(inputs[k].sample) else MotionTraces.TamperCleared
    ensures Motions(inputs[..k]) == Motions(inputs)[..k]
  {
    if k < |inputs| - 1 {
      MotionsAt(inputs[..|inputs| - 1], k);
      assert inputs[..|inputs| - 1][..k] == inputs[..k];
    }
  }

  /** The samples with acceleration are in time order, and every time is a uint32_t. */
  ghost predicate Timely(inputs: seq<Input>) {
    Stamped(inputs) && MotionTraces.InOrder(Motions(inputs)) && MotionTraces.Stamped(Motions(inputs))
  }

  lemma TimelyBefore(inputs: seq<Input>)
    requires Timely(inputs) && inputs != []
    ensures Timely(inputs[..|inputs| - 1]) && Stamped(inputs[..|inputs| - 1])
    ensures Motions(inputs)[..|inputs| - 1] == Motions(inputs[..|inputs| - 1])
    ensures inputs[|inputs| - 1].Sampled? ==> inputs[|inputs| - 1].sample.timestamp < UINT32_LIMIT
  {
    MotionsAt(inputs, |inputs| - 1);
    PrefixInOrder(Motions(inputs), |inputs| - 1);
    hide Motions, MotionTraces.InOrder, MotionTraces.Stamped;
  }

  lemma PrefixInOrder(trace: seq<MotionTraces.Input>, n: nat)
    requires n <= |trace| && MotionTraces.InOrder(trace) && MotionTraces.Stamped(trace)
    ensures MotionTraces.InOrder(trace[..n]) && MotionTraces.Stamped(trace[..n])
  {
  }

  /** The latest sample starts a movement. */
  predicate Starts(mc: Config, before: seq<Input>, s: Sample) {
    Accel in s.valid && IsActive(s, mc.motionThreshold) && !MotionReports.WasMoving(mc, Motions(before))
  }

  predicate Stops(mc: Config, before: seq<Input>, s: Sample) {
    MotionReports.Stops(mc, Motions(before), MotionTraces.Sampled(s))
  }

  /** From the first to the last active sample of the latest movement. */
  function Duration(mc: Config, before: seq<Input>): nat {
    var start := MotionReports.MovementStart(mc, Motions(before));
    match MotionTraces.LastActive(mc, Motions(before))
    case None => 0
    case Some(last) => if last >= start then last - start else 0
  }

  ghost predicate Struck(mc: Config, before: seq<Input>, s: Sample) {
    MotionReports.Struck(mc, Motions(before), s)
  }

  ghost predicate Fell(mc: Config, before: seq<Input>, s: Sample) {
    MotionReports.Fell(mc, Motions(before), s)
  }

  predicate Turned(before: seq<Input>, s: Sample) {
    MotionReports.Turned(Motions(before), s)
  }

  /** Struck and turned after a rest, with no tampering pending. */
  ghost predicate Tampered(mc: Config, before: seq<Input>, s: Sample) {
    MotionReports.Provoked(mc, Motions(before), s) && !MotionReports.Pending(mc, Motions(before))
  }

  function Force(mc: Config, s: Sample): nat {
    ShockDetector.Hardness(MotionReports.ReadingOf(mc, s))
  }

  // ---- The events of a sample ----

  /** What a motion result is turned into, in order. */
  lemma MotionEventsExactly(r: MotionResult)
    requires r.shockMg <= 0xffff
    ensures MotionEvents(r) ==
      When(r.start, Event(MotionStart, InfoSeverity, 0))
      + When(r.stop, Event(MotionStop, InfoSeverity, Min(r.duration, 32_767)))
      + When(r.shock, Event(Shock, AlarmSeverity, Signed(r.shockMg)))
      + When(r.freeFall, Event(FreeFall, AlarmSeverity, 0))
      + When(r.turned, Event(OrientationChange, InfoSeverity, Facing(r.orientation)))
      + When(r.tamper, Event(Tamper, AlarmSeverity, 0))
  {
  }

  /** The directions are numbered in pairs: X, Y, Z, upwards and downwards. */
  function Facing(o: Orientation): nat {
    match o
    case Unknown => 0
    case XUp => 1
    case XDown => 2
    case YUp => 3
    case YDown => 4
    case ZUp => 5
    case ZDown => 6
  }

  /** The machine of a tag is that of its motion history. */
  lemma {:induction false} MotionOfTag(stored: Statistics, mc: Config, inputs: seq<Input>)
    requires Stamped(inputs) && MotionTraces.Stamped(Motions(inputs))
    ensures After(stored, mc, inputs).motion == MotionTraces.After(mc, Motions(inputs))
  {
    if inputs != [] {
      var n := |inputs| - 1;
      assert Motions(inputs)[..n] == Motions(inputs[..n]);
      MotionOfTag(stored, mc, inputs[..n]);
      hide Process, ApplySample;
    }
  }

  /** A motion result of the latest sample, as the history has it. */
  ghost predicate Fits(r: MotionResult, mc: Config, inputs: seq<Input>)
    requires inputs != [] && inputs[|inputs| - 1].Sampled?
  {
    var before, s := inputs[..|inputs| - 1], inputs[|inputs| - 1].sample;
    && (r.start <==> Starts(mc, before, s))
    && (r.stop <==> Stops(mc, before, s)) && r.duration == (if r.stop then Duration(mc, before) else 0)
    && (r.shock <==> Struck(mc, before, s)) && r.shockMg == (if r.shock then Force(mc, s) else 0)
    && (r.freeFall <==> Fell(mc, before, s))
    && (r.turned <==> Turned(before, s)) && (r.tamper <==> Tampered(mc, before, s))
    && (r.moving <==> MotionReports.WasMoving(mc, Motions(inputs)))
    && r.orientation == MotionTraces.LastFacing(Motions(inputs))
  }

  lemma ResultByHistory(stored: Statistics, mc: Config, inputs: seq<Input>)
    requires Timely(inputs) && mc.motionTimeout >= 1 && inputs != [] && inputs[|inputs| - 1].Sampled?
    ensures var before, s := inputs[..|inputs| - 1], inputs[|inputs| - 1].sample;
      Fits(Process(After(stored, mc, before).motion, mc, s).1, mc, inputs)
  {
    var n := |inputs| - 1;
    TimelyBefore(inputs);
    MotionsAt(inputs, n);
    MotionOfTag(stored, mc, inputs[..n]);
    MotionReports.ReportedByHistory(mc, Motions(inputs));
    MotionReports.MovementIsPast(mc, Motions(inputs[..n]));
    hide Process, Motions, MotionReports.Struck, MotionReports.Fell, MotionReports.Turned, MotionReports.Provoked,
        MotionReports.Pending, MotionReports.WasMoving, MotionTraces.InOrder;
  }

  lemma MotionRaised(stored: Statistics, mc: Config, inputs: seq<Input>)
    requires Timely(inputs) && mc.motionTimeout >= 1 && inputs != [] && inputs[|inputs| - 1].Sampled?
    ensures var before, s := inputs[..|inputs| - 1], inputs[|inputs| - 1].sample;
      MotionEvents(Process(After(stored, mc, before).motion, mc, s).1) ==
        When(Starts(mc, before, s), Event(MotionStart, InfoSeverity, 0))
        + When(Stops(mc, before, s), Event(MotionStop, InfoSeverity, Min(Duration(mc, before), 32_767)))
        + When(Struck(mc, before, s), Event(Shock, AlarmSeverity, Signed(Force(mc, s))))
        + When(Fell(mc, before, s), Event(FreeFall, AlarmSeverity, 0))
        + When(Turned(before, s), Event(OrientationChange, InfoSeverity, Facing(OrientationOf(s))))
        + When(Tampered(mc, before, s), Event(Tamper, AlarmSeverity, 0))
  {
    hide Timely, Process, MotionEvents, When, Motions, Starts, Stops, Duration, Struck, Fell, Force, Turned, Tampered,
        Facing, Signed, OrientationOf, Min, MotionReports.WasMoving, MotionTraces.LastFacing, After;
    var before, s := inputs[..|inputs| - 1], inputs[|inputs| - 1].sample;
    TimelyBefore(inputs);
    var r := Process(After(stored, mc, before).motion, mc, s).1;
    ResultByHistory(stored, mc, inputs);
    FacesNow(inputs);
    ForceFits(mc, s);
    MotionEventsExactly(r);
    WhenNot(Event(MotionStop, InfoSeverity, Min(Duration(mc, before), 32_767)),
            Event(MotionStop, InfoSeverity, Min(r.duration, 32_767)));
    WhenNot(Event(Shock, AlarmSeverity, Signed(Force(mc, s))), Event(Shock, AlarmSeverity, Signed(r.shockMg)));
    WhenNot(Event(OrientationChange, InfoSeverity, Facing(OrientationOf(s))),
            Event(OrientationChange, InfoSeverity, Facing(r.orientation)));
  }

  lemma WhenNot(a: Event, b: Event)
    ensures When(false, a) == When(false, b)
  {
  }

  /** The motion alarms do not matter to the thresholds. */
  lemma AlarmsRaised(flags: set<Alarm>, r: MotionResult, s: Sample, c: Config, expected: set<Sensor>)
    requires s.humidity <= 0xffff && s.batteryMv <= 0xffff
    ensures Evaluate(flags + MotionFlags(r), s, c, expected).1 == Evaluate(flags, s, c, expected).1
  {
    ReportedExactly(flags, s, c, expected);
    ReportedExactly(flags + MotionFlags(r), s, c, expected);
    hide Evaluate, When, Signed, KiloOhms, MaskValue;
  }

  /** Exactly which events a sample gives rise to, in order and with their values:
      those of its motion and those of the alarms that it raises, by the history
      before it alone. The queue takes the first eight. */
  lemma RaisedByHistory(stored: Statistics, mc: Config, inputs: seq<Input>)
    requires Timely(inputs) && mc.motionTimeout >= 1 && inputs != [] && inputs[|inputs| - 1].Sampled?
    requires inputs[|inputs| - 1].sample.humidity <= 0xffff && inputs[|inputs| - 1].sample.batteryMv <= 0xffff
    ensures var before := inputs[..|inputs| - 1];
      var Sampled(s, c, expected) := inputs[|inputs| - 1];
      var tag := After(stored, mc, before);
      var all := AllEvents(tag.motion, mc, tag.books.status, c, expected, s);
      && all ==
        When(Starts(mc, before, s), Event(MotionStart, InfoSeverity, 0))
        + When(Stops(mc, before, s), Event(MotionStop, InfoSeverity, Min(Duration(mc, before), 32_767)))
        + When(Struck(mc, before, s), Event(Shock, AlarmSeverity, Signed(Force(mc, s))))
        + When(Fell(mc, before, s), Event(FreeFall, AlarmSeverity, 0))
        + When(Turned(before, s), Event(OrientationChange, InfoSeverity, Facing(OrientationOf(s))))
        + When(Tampered(mc, before, s), Event(Tamper, AlarmSeverity, 0))
        + (When(TempRh in s.valid && s.temperature > c.tempHigh && !Sounding(TempHighAlarm, before),
                Event(TempHigh, AlarmSeverity, s.temperature))
           + When(TempRh in s.valid && s.temperature < c.tempLow && s.temperature <= c.tempHigh
                  && !Sounding(TempLowAlarm, before),
                  Event(TempLow, AlarmSeverity, s.temperature))
           + When(TempRh in s.valid && s.humidity > c.humidityHigh && !Sounding(HumidityHighAlarm, before),
                  Event(HumidityHigh, WarningSeverity, Signed(s.humidity)))
           + When(Gas in s.valid && 0 < c.gasLow && s.gasOhm < c.gasLow && !Sounding(GasLowAlarm, before),
                  Event(GasLow, WarningSeverity, KiloOhms(s.gasOhm)))
           + When(Battery in s.valid && s.batteryMv < c.batteryLow && !Sounding(BatteryLowAlarm, before),
                  Event(BatteryLow, WarningSeverity, Signed(s.batteryMv)))
           + When(!(expected <= s.valid) && !Sounding(SensorFaultAlarm, before),
                  Event(SensorFault, WarningSeverity, MaskValue(s.valid))))
      && Enqueue([], all) == if |all| <= 8 then all else all[..8]
  {
    hide *;
    var before := inputs[..|inputs| - 1];
    var Sampled(s, c, expected) := inputs[|inputs| - 1];
    TimelyBefore(inputs);
    var tag := After(stored, mc, before);
    MotionRaised(stored, mc, inputs);
    AlarmsRaised(tag.books.status.flags, Process(tag.motion, mc, s).1, s, c, expected);
    ReportedExactly(tag.books.status.flags, s, c, expected);
    AllThresholdAlarms(stored, mc, before);
    BothParts(tag.motion, mc, tag.books.status, c, expected, s);
    FirstEight(AllEvents(tag.motion, mc, tag.books.status, c, expected, s));
  }

  lemma BothParts(m: Motion, mc: Config, st: Status, c: Config, expected: set<Sensor>, s: Sample)
    requires m.Fits() && s.timestamp < UINT32_LIMIT
    ensures var r := Process(m, mc, s).1;
      AllEvents(m, mc, st, c, expected, s) == MotionEvents(r) + Evaluate(st.flags + MotionFlags(r), s, c, expected).1
  {
    hide Process, MotionEvents, Evaluate, MotionFlags;
  }

  lemma FirstEight(events: seq<Event>)
    ensures Enqueue([], events) == if |events| <= 8 then events else events[..8]
  {
  }

  lemma ForceFits(mc: Config, s: Sample)
    ensures Force(mc, s) <= 0xffff
  {
  }

  /** A sample that turns the tag shows which way it faces. */
  lemma FacesNow(inputs: seq<Input>)
    requires inputs != [] && inputs[|inputs| - 1].Sampled?
    ensures var before, s := inputs[..|inputs| - 1], inputs[|inputs| - 1].sample;
      Turned(before, s) ==> MotionTraces.LastFacing(Motions(inputs)) == OrientationOf(s)
  {
    MotionsAt(inputs, |inputs| - 1);
    hide OrientationOf;
  }

  /** The marks that a sample gets for its history record: the state after it, and
      what has been reported of it on top of what it was marked with already. A
      sample without acceleration keeps its marks. */
  lemma MarksByHistory(stored: Statistics, mc: Config, inputs: seq<Input>, marks: Marks)
    requires Timely(inputs) && mc.motionTimeout >= 1 && inputs != [] && inputs[|inputs| - 1].Sampled?
    ensures var before, s := inputs[..|inputs| - 1], inputs[|inputs| - 1].sample;
      var after := Mark(marks, s, Process(After(stored, mc, before).motion, mc, s).1);
      if Accel !in s.valid then after == marks
      else
        && (after.motion <==> MotionReports.WasMoving(mc, Motions(inputs)))
        && after.orientation == MotionTraces.LastFacing(Motions(inputs))
        && (after.shock <==> marks.shock || Struck(mc, before, s))
        && (after.freeFall <==> marks.freeFall || Fell(mc, before, s))
  {
    hide Process, Struck, Fell, Motions, Starts, Stops, Turned, Tampered, Timely, After, Duration, Force;
    TimelyBefore(inputs);
    ResultByHistory(stored, mc, inputs);
  }

  // ---- The ledger ----

  /** What a field of 32 bits, or of 16, holds of a number. */
  function Uint32(n: nat): nat {
    n % 0x1_0000_0000
  }

  function Uint16(n: nat): nat {
    n % 0x1_0000
  }

  /** How many impacts and falls have been reported since the latest reset, the
      hardest impact, and the seconds of movement. */
  ghost function Shocks(mc: Config, inputs: seq<Input>): nat {
    if inputs == [] then 0
    else
      var before := inputs[..|inputs| - 1];
      match inputs[|inputs| - 1]
      case CountersReset => 0
      case Sampled(s, _, _) => Shocks(mc, before) + if Struck(mc, before, s) then 1 else 0
  }

  ghost function Falls(mc: Config, inputs: seq<Input>): nat {
    if inputs == [] then 0
    else
      var before := inputs[..|inputs| - 1];
      match inputs[|inputs| - 1]
      case CountersReset => 0
      case Sampled(s, _, _) => Falls(mc, before) + if Fell(mc, before, s) then 1 else 0
  }

  ghost function Hardest(mc: Config, inputs: seq<Input>): nat {
    if inputs == [] then 0
    else
      var before := inputs[..|inputs| - 1];
      match inputs[|inputs| - 1]
      case CountersReset => 0
      case Sampled(s, _, _) =>
        if Struck(mc, before, s) && Force(mc, s) > Hardest(mc, before) then Force(mc, s) else Hardest(mc, before)
  }

  function Seconds(mc: Config, inputs: seq<Input>): nat {
    if inputs == [] then 0
    else
      var before := inputs[..|inputs| - 1];
      match inputs[|inputs| - 1]
      case CountersReset => 0
      case Sampled(s, _, _) => Seconds(mc, before) + if Stops(mc, before, s) then Duration(mc, before) else 0
  }

  /** How many movements have started since boot. */
  function Movements(mc: Config, inputs: seq<Input>): nat {
    if inputs == [] then 0
    else
      var before := inputs[..|inputs| - 1];
      match inputs[|inputs| - 1]
      case CountersReset => Movements(mc, before)
      case Sampled(s, _, _) => Movements(mc, before) + if Starts(mc, before, s) then 1 else 0
  }

  /** The latest sample lacks a sensor that it should have. */
  predicate Lacking(inputs: seq<Input>) {
    if inputs == [] then false
    else
      match inputs[|inputs| - 1]
      case CountersReset => Lacking(inputs[..|inputs| - 1])
      case Sampled(s, _, expected) => !(expected <= s.valid)
  }

  /** How often a sample lacked a sensor after one that did not. */
  function Faults(inputs: seq<Input>): nat {
    if inputs == [] then 0
    else
      var before := inputs[..|inputs| - 1];
      Faults(before) + if Lacking(inputs) && !Lacking(before) then 1 else 0
  }

  /** The battery readings since the latest that was 0, after what is stored: a 0
      stands for none. */
  function Volts(stored: nat, inputs: seq<Input>): seq<nat> {
    if inputs == [] then (if stored == 0 then [] else [stored])
    else
      var before := Volts(stored, inputs[..|inputs| - 1]);
      match inputs[|inputs| - 1]
      case CountersReset => before
      case Sampled(s, _, _) =>
        if Battery !in s.valid then before else if s.batteryMv == 0 then [] else before + [s.batteryMv]
  }

  function LastSampled(stored: nat, inputs: seq<Input>): nat {
    if inputs == [] then stored
    else
      match inputs[|inputs| - 1]
      case CountersReset => LastSampled(stored, inputs[..|inputs| - 1])
      case Sampled(s, _, _) => s.timestamp
  }

  /** The least of the readings, or 0 if there are none. */
  ghost predicate IsLeast(least: nat, readings: seq<nat>) {
    if readings == [] then least == 0
    else least > 0 && least in readings && forall v :: v in readings ==> least <= v
  }

  function Larger(a: nat, b: nat): nat {
    if a > b then a else b
  }

  /** What the status and the statistics hold after a history. */
  ghost predicate StatusHolds(st: Status, stored: Statistics, mc: Config, inputs: seq<Input>) {
    && st.shockCount == Uint32(Carried(stored.shockCount, inputs) + Shocks(mc, inputs))
    && st.freeFallCount == Uint32(Carried(stored.freeFallCount, inputs) + Falls(mc, inputs))
    && st.movementDuration == Uint32(Carried(stored.movementDuration, inputs) + Seconds(mc, inputs))
    && st.maxShock == Larger(Carried(stored.maxShock, inputs), Hardest(mc, inputs))
    && st.lastMovement == MotionReports.MovementStart(mc, Motions(inputs))
    && (st.moving <==> MotionReports.WasMoving(mc, Motions(inputs)))
    && st.orientation == MotionTraces.LastFacing(Motions(inputs))
    && (st.tamper <==> MotionReports.Pending(mc, Motions(inputs)))
  }

  ghost predicate StatisticsHold(b: Books, stored: Statistics, mc: Config, inputs: seq<Input>) {
    && (SensorFaultAlarm in b.status.flags <==> Lacking(inputs))
    && b.statistics.bootCount == Uint32(stored.bootCount + 1)
    && b.statistics.motionCount == Uint32(stored.motionCount + Movements(mc, inputs))
    && b.statistics.sensorFaults == Uint16(stored.sensorFaults + Faults(inputs))
    && b.statistics.totalUptime == LastSampled(stored.totalUptime, inputs)
    && IsLeast(b.statistics.minBattery, Volts(stored.minBattery, inputs))
  }

  /** Every stored number fits its field. */
  predicate Storable(s: Statistics) {
    && s.bootCount < UINT32_LIMIT && s.motionCount < UINT32_LIMIT && s.shockCount < UINT32_LIMIT
    && s.freeFallCount < UINT32_LIMIT && s.movementDuration < UINT32_LIMIT && s.sensorFaults < 0x1_0000
  }

  /** What one sample does to the status and to the statistics, number by number. */
  predicate StatusBooked(st: Status, st': Status, r: MotionResult, now: nat) {
    && st'.shockCount == (if r.shock then Add32(st.shockCount, 1) else st.shockCount)
    && st'.freeFallCount == (if r.freeFall then Add32(st.freeFallCount, 1) else st.freeFallCount)
    && st'.movementDuration == (if r.stop then Add32(st.movementDuration, r.duration) else st.movementDuration)
    && st'.maxShock == (if r.shock then Larger(st.maxShock, r.shockMg) else st.maxShock)
    && st'.lastMovement == (if r.start then now else st.lastMovement)
    && st'.moving == r.moving && st'.orientation == r.orientation && st'.tamper == (st.tamper || r.tamper)
  }

  predicate StatisticsBooked(b: Books, b': Books, r: MotionResult, s: Sample, expected: set<Sensor>) {
    var (before, after) := (b.statistics, b'.statistics);
    && (SensorFaultAlarm in b'.status.flags <==> !(expected <= s.valid))
    && after.bootCount == before.bootCount
    && after.motionCount == (if r.start then Add32(before.motionCount, 1) else before.motionCount)
    && after.sensorFaults == (if !(expected <= s.valid) && SensorFaultAlarm !in b.status.flags
                              then Add16(before.sensorFaults, 1) else before.sensorFaults)
    && after.totalUptime == s.timestamp
    && after.minBattery == (if Battery in s.valid && (before.minBattery == 0 || s.batteryMv < before.minBattery)
                            then s.batteryMv else before.minBattery)
  }

  lemma SampleBooked(b: Books, r: MotionResult, s: Sample, c: Config, expected: set<Sensor>)
    ensures var b' := ApplySample(b, r, s, c, expected);
      StatusBooked(b.status, b'.status, r, s.timestamp) && StatisticsBooked(b, b', r, s, expected)
  {
    EvaluateMeans(b.status.flags + MotionFlags(r), s, c, expected, SensorFaultAlarm);
    hide Evaluate, MotionEvents, Enqueue, Add32, Add16;
  }

  /** Adding to a counter that has wrapped. */
  lemma Counts(counter: nat, carried: nat, sum: nat, more: nat, occurred: bool)
    requires counter == Uint32(carried + sum)
    ensures (if occurred then Add32(counter, more) else counter)
        == Uint32(carried + (sum + if occurred then more else 0))
  {
    Modular.AddMod(carried + sum, more, UINT32_LIMIT);
  }

  lemma CountsFault(counter: nat, carried: nat, sum: nat, occurred: bool)
    requires counter == Uint16(carried + sum)
    ensures (if occurred then Add16(counter, 1) else counter)
        == Uint16(carried + (sum + if occurred then 1 else 0))
  {
    Modular.AddMod(carried + sum, 1, 0x1_0000);
  }

  lemma LeastStep(least: nat, readings: seq<nat>, v: nat)
    requires IsLeast(least, readings)
    ensures IsLeast(if least == 0 || v < least then v else least, if v == 0 then [] else readings + [v])
  {
    var after := readings + [v];
    assert after[|readings|] == v;
    assert forall k :: 0 <= k < |readings| ==> after[k] == readings[k];
  }

  /** One more sample, in each of the sums. */
  lemma SumsStep(stored: Statistics, mc: Config, inputs: seq<Input>)
    requires inputs != [] && inputs[|inputs| - 1].Sampled?
    ensures var before, s := inputs[..|inputs| - 1], inputs[|inputs| - 1].sample;
      && Shocks(mc, inputs) == Shocks(mc, before) + (if Struck(mc, before, s) then 1 else 0)
      && Falls(mc, inputs) == Falls(mc, before) + (if Fell(mc, before, s) then 1 else 0)
      && Hardest(mc, inputs) == Larger(Hardest(mc, before), if Struck(mc, before, s) then Force(mc, s) else 0)
      && Seconds(mc, inputs) == Seconds(mc, before) + (if Stops(mc, before, s) then Duration(mc, before) else 0)
      && Movements(mc, inputs) == Movements(mc, before) + (if Starts(mc, before, s) then 1 else 0)
      && Faults(inputs) == Faults(before) + (if Lacking(inputs) && !Lacking(before) then 1 else 0)
      && Lacking(inputs) == !(inputs[|inputs| - 1].expected <= s.valid)
      && LastSampled(stored.totalUptime, inputs) == s.timestamp
      && Volts(stored.minBattery, inputs)
          == (if Battery !in s.valid then Volts(stored.minBattery, before)
              else if s.batteryMv == 0 then [] else Volts(stored.minBattery, before) + [s.batteryMv])
  {
    hide Struck, Fell, Force, Stops, Duration, Starts;
  }

  /** A sample leaves what is carried over as it is. */
  lemma StillCarried(counter: nat, inputs: seq<Input>)
    requires inputs != [] && inputs[|inputs| - 1].Sampled?
    ensures Carried(counter, inputs) == Carried(counter, inputs[..|inputs| - 1])
  {
    CarriedStep(counter, inputs);
  }

  lemma HardestStep(carried: nat, hardest: nat, r: MotionResult)
    requires !r.shock ==> r.shockMg == 0
    ensures (if r.shock then Larger(Larger(carried, hardest), r.shockMg) else Larger(carried, hardest))
        == Larger(carried, Larger(hardest, r.shockMg))
  {
  }

  lemma StatusAfterSample(b: Books, r: MotionResult, stored: Statistics, mc: Config, inputs: seq<Input>)
    requires inputs != [] && inputs[|inputs| - 1].Sampled?
    requires StatusHolds(b.status, stored, mc, inputs[..|inputs| - 1]) && Fits(r, mc, inputs)
    ensures var Sampled(s, c, expected) := inputs[|inputs| - 1];
      StatusHolds(ApplySample(b, r, s, c, expected).status, stored, mc, inputs)
  {
    hide Shocks, Falls, Hardest, Seconds, Movements, Faults, Lacking, Volts, LastSampled, ApplySample, Add32, Add16,
        Carried, Motions, Starts, Stops, Duration, Struck, Fell, Force, Turned, Tampered, MotionReports.WasMoving,
        MotionReports.Pending, MotionReports.MovementStart, MotionTraces.LastFacing, Uint32, Larger,
        StatisticsBooked;
    var before, st := inputs[..|inputs| - 1], b.status;
    var Sampled(s, c, expected) := inputs[|inputs| - 1];
    SampleBooked(b, r, s, c, expected);
    SumsStep(stored, mc, inputs);
    StillCarried(stored.shockCount, inputs);
    StillCarried(stored.freeFallCount, inputs);
    StillCarried(stored.movementDuration, inputs);
    StillCarried(stored.maxShock, inputs);
    StartAndPending(mc, inputs);
    HardestStep(Carried(stored.maxShock, before), Hardest(mc, before), r);
    Counts(st.shockCount, Carried(stored.shockCount, before), Shocks(mc, before), 1, r.shock);
    Counts(st.freeFallCount, Carried(stored.freeFallCount, before), Falls(mc, before), 1, r.freeFall);
    Counts(st.movementDuration, Carried(stored.movementDuration, before), Seconds(mc, before), r.duration, r.stop);
  }

  lemma StatisticsAfterSample(b: Books, r: MotionResult, stored: Statistics, mc: Config, inputs: seq<Input>)
    requires inputs != [] && inputs[|inputs| - 1].Sampled?
    requires StatisticsHold(b, stored, mc, inputs[..|inputs| - 1]) && Fits(r, mc, inputs)
    ensures var Sampled(s, c, expected) := inputs[|inputs| - 1];
      StatisticsHold(ApplySample(b, r, s, c, expected), stored, mc, inputs)
  {
    hide Shocks, Falls, Hardest, Seconds, Movements, Faults, Lacking, Volts, LastSampled, ApplySample, Add32, Add16,
        Carried, Motions, Starts, Stops, Duration, Struck, Fell, Force, Turned, Tampered, Larger, IsLeast, Uint32,
        Uint16, MotionReports.WasMoving, MotionTraces.LastFacing, StatusBooked;
    var before, lifetime := inputs[..|inputs| - 1], b.statistics;
    var Sampled(s, c, expected) := inputs[|inputs| - 1];
    SampleBooked(b, r, s, c, expected);
    SumsStep(stored, mc, inputs);
    Counts(lifetime.motionCount, stored.motionCount, Movements(mc, before), 1, r.start);
    CountsFault(lifetime.sensorFaults, stored.sensorFaults, Faults(before), Lacking(inputs) && !Lacking(before));
    LeastStep(lifetime.minBattery, Volts(stored.minBattery, before), s.batteryMv);
  }

  lemma StartAndPending(mc: Config, inputs: seq<Input>)
    requires inputs != []
    ensures var before, trace := inputs[..|inputs| - 1], Motions(inputs);
      match inputs[|inputs| - 1]
      case CountersReset =>
        && MotionReports.MovementStart(mc, trace) == MotionReports.MovementStart(mc, Motions(before))
        && !MotionReports.Pending(mc, trace)
      case Sampled(s, _, _) =>
        && MotionReports.MovementStart(mc, trace)
            == (if Starts(mc, before, s) then s.timestamp else MotionReports.MovementStart(mc, Motions(before)))
        && (MotionReports.Pending(mc, trace) <==>
              MotionReports.Pending(mc, Motions(before)) || Tampered(mc, before, s))
  {
    MotionsAt(inputs, |inputs| - 1);
    hide MotionReports.Provoked, IsActive, MotionReports.WasMoving, Motions;
  }

  lemma StatusAfterReset(b: Books, stored: Statistics, mc: Config, inputs: seq<Input>)
    requires inputs != [] && inputs[|inputs| - 1].CountersReset?
    requires StatusHolds(b.status, stored, mc, inputs[..|inputs| - 1])
    ensures StatusHolds(ApplyReset(b).status, stored, mc, inputs)
  {
    hide Motions, Carried, MotionReports.Pending, MotionReports.MovementStart, MotionReports.WasMoving,
        MotionTraces.LastFacing;
    CarriedStep(stored.shockCount, inputs);
    CarriedStep(stored.freeFallCount, inputs);
    CarriedStep(stored.movementDuration, inputs);
    CarriedStep(stored.maxShock, inputs);
    StartAndPending(mc, inputs);
    ResetKeepsState(mc, inputs);
  }

  /** A reset is no sample: the tag is as it was. */
  lemma ResetKeepsState(mc: Config, inputs: seq<Input>)
    requires inputs != [] && inputs[|inputs| - 1].CountersReset?
    ensures var before := inputs[..|inputs| - 1];
      && (MotionReports.WasMoving(mc, Motions(inputs)) <==> MotionReports.WasMoving(mc, Motions(before)))
      && MotionTraces.LastFacing(Motions(inputs)) == MotionTraces.LastFacing(Motions(before))
  {
    hide Motions;
    MotionsAt(inputs, |inputs| - 1);
  }

  lemma StatisticsAfterReset(b: Books, stored: Statistics, mc: Config, inputs: seq<Input>)
    requires inputs != [] && inputs[|inputs| - 1].CountersReset?
    requires StatisticsHold(b, stored, mc, inputs[..|inputs| - 1])
    ensures StatisticsHold(ApplyReset(b), stored, mc, inputs)
  {
    hide Uint32, Uint16, IsLeast;
  }

  lemma AfterBoot(stored: Statistics, mc: Config)
    requires Storable(stored)
    ensures StatusHolds(Booted(stored).status, stored, mc, []) && StatisticsHold(Booted(stored), stored, mc, [])
  {
  }

  /** The books by the history alone, over any run from any boot: every counter goes
      on from what was stored, or from 0 after a reset, and goes up with what the
      history says has been reported, wrapping as its field does; the hardest shock
      and the lowest battery are those of the history, with a reading of 0 taken for
      none; and the status is that of the latest samples. */
  lemma {:induction false} BooksByHistory(stored: Statistics, mc: Config, inputs: seq<Input>)
    requires Timely(inputs) && mc.motionTimeout >= 1 && Storable(stored)
    ensures var books := After(stored, mc, inputs).books;
      StatusHolds(books.status, stored, mc, inputs) && StatisticsHold(books, stored, mc, inputs)
  {
    if inputs == [] {
      AfterBoot(stored, mc);
    } else {
      var n := |inputs| - 1;
      TimelyBefore(inputs);
      BooksByHistory(stored, mc, inputs[..n]);
      var tag := After(stored, mc, inputs[..n]);
      hide StatusHolds, StatisticsHold, Fits, Process, ApplySample, ApplyReset, Motions, MotionTraces.InOrder, Storable;
      if inputs[n].Sampled? {
        var r := Process(tag.motion, mc, inputs[n].sample).1;
        ResultByHistory(stored, mc, inputs);
        StatusAfterSample(tag.books, r, stored, mc, inputs);
        StatisticsAfterSample(tag.books, r, stored, mc, inputs);
      } else {
        StatusAfterReset(tag.books, stored, mc, inputs);
        StatisticsAfterReset(tag.books, stored, mc, inputs);
      }
    }
  }

  // ---- The alarms ----

  predicate RaisedBy(a: Alarm, input: Input) {
    input.Sampled? && Raises(a, input.sample, input.config, input.expected)
  }

  predicate ClearedBy(a: Alarm, input: Input) {
    input.Sampled? && Clears(a, input.sample, input.config, input.expected)
  }

  /** A sample has raised the alarm, and no later one has cleared it. */
  ghost predicate Sounding(a: Alarm, inputs: seq<Input>) {
    exists k :: 0 <= k < |inputs| && RaisedBy(a, inputs[k]) && forall m :: k < m < |inputs| ==> !ClearedBy(a, inputs[m])
  }

  lemma SoundingStep(a: Alarm, inputs: seq<Input>)
    requires inputs != []
    ensures var n := |inputs| - 1;
      Sounding(a, inputs) <==> RaisedBy(a, inputs[n]) || (Sounding(a, inputs[..n]) && !ClearedBy(a, inputs[n]))
  {
    hide RaisedBy, ClearedBy;
    var n := |inputs| - 1;
    if RaisedBy(a, inputs[n]) {
    } else if Sounding(a, inputs[..n]) && !ClearedBy(a, inputs[n]) {
      var k :| 0 <= k < n && RaisedBy(a, inputs[..n][k])
          && forall m :: k < m < n ==> !ClearedBy(a, inputs[..n][m]);
      assert RaisedBy(a, inputs[k]);
      forall m | k < m < |inputs| ensures !ClearedBy(a, inputs[m]) {
        assert m < n ==> inputs[m] == inputs[..n][m];
      }
    } else if Sounding(a, inputs) {
      var k :| 0 <= k < |inputs| && RaisedBy(a, inputs[k]) && forall m :: k < m < |inputs| ==> !ClearedBy(a, inputs[m]);
      assert RaisedBy(a, inputs[..n][k]);
      forall m | k < m < n ensures !ClearedBy(a, inputs[..n][m]) {
        assert inputs[m] == inputs[..n][m];
      }
    }
  }

  lemma NothingSounds(a: Alarm)
    ensures !Sounding(a, [])
  {
  }

  /** A threshold alarm by the history alone, over any run from any boot: it is lit
      exactly if a sample has raised it and no later one has cleared it, whatever
      was reset in between. */
  lemma {:induction false} ThresholdAlarmByHistory(stored: Statistics, mc: Config, inputs: seq<Input>, a: Alarm)
    requires Stamped(inputs) && a in EVALUATED
    ensures a in After(stored, mc, inputs).books.status.flags <==> Sounding(a, inputs)
  {
    hide Process, ApplySample, Sounding, Raises, Clears;
    if inputs == [] {
      NothingSounds(a);
    } else {
      var n := |inputs| - 1;
      ThresholdAlarmByHistory(stored, mc, inputs[..n], a);
      SoundingStep(a, inputs);
      var tag := After(stored, mc, inputs[..n]);
      if inputs[n].Sampled? {
        var Sampled(s, c, expected) := inputs[n];
        SampledAlarm(tag.books, Process(tag.motion, mc, s).1, s, c, expected, a);
      }
    }
  }

  lemma AllThresholdAlarms(stored: Statistics, mc: Config, inputs: seq<Input>)
    requires Stamped(inputs)
    ensures var flags := After(stored, mc, inputs).books.status.flags;
      && (TempHighAlarm in flags <==> Sounding(TempHighAlarm, inputs))
      && (TempLowAlarm in flags <==> Sounding(TempLowAlarm, inputs))
      && (HumidityHighAlarm in flags <==> Sounding(HumidityHighAlarm, inputs))
      && (GasLowAlarm in flags <==> Sounding(GasLowAlarm, inputs))
      && (BatteryLowAlarm in flags <==> Sounding(BatteryLowAlarm, inputs))
      && (SensorFaultAlarm in flags <==> Sounding(SensorFaultAlarm, inputs))
  {
    hide After, Sounding;
    forall a | a in EVALUATED { ThresholdAlarmByHistory(stored, mc, inputs, a); }
  }

  /** The motion alarms: lit exactly if one of their events has been reported since
      boot or the latest reset. */
  ghost predicate MotionAlarmsHold(flags: set<Alarm>, mc: Config, inputs: seq<Input>) {
    && (ShockAlarm in flags <==> Shocks(mc, inputs) > 0)
    && (FreeFallAlarm in flags <==> Falls(mc, inputs) > 0)
    && (TamperAlarm in flags <==> MotionReports.Pending(mc, Motions(inputs)))
  }

  lemma {:induction false} MotionAlarmsByHistory(stored: Statistics, mc: Config, inputs: seq<Input>)
    requires Timely(inputs) && mc.motionTimeout >= 1
    ensures MotionAlarmsHold(After(stored, mc, inputs).books.status.flags, mc, inputs)
  {
    hide Process, ApplySample, ApplyReset, Motions, Timely, MotionAlarmsHold, Fits;
    if inputs == [] {
      NoMotionAlarms(stored, mc);
    } else {
      var n := |inputs| - 1;
      TimelyBefore(inputs);
      MotionAlarmsByHistory(stored, mc, inputs[..n]);
      var tag := After(stored, mc, inputs[..n]);
      if inputs[n].Sampled? {
        ResultByHistory(stored, mc, inputs);
        MotionAlarmsStep(tag.books, Process(tag.motion, mc, inputs[n].sample).1, mc, inputs);
      } else {
        MotionAlarmsReset(tag.books, mc, inputs);
      }
    }
  }

  lemma NoMotionAlarms(stored: Statistics, mc: Config)
    ensures MotionAlarmsHold(Booted(stored).status.flags, mc, [])
  {
  }

  lemma MotionAlarmsStep(b: Books, r: MotionResult, mc: Config, inputs: seq<Input>)
    requires inputs != [] && inputs[|inputs| - 1].Sampled? && Fits(r, mc, inputs)
    requires MotionAlarmsHold(b.status.flags, mc, inputs[..|inputs| - 1])
    ensures var Sampled(s, c, expected) := inputs[|inputs| - 1];
      MotionAlarmsHold(ApplySample(b, r, s, c, expected).status.flags, mc, inputs)
  {
    hide ApplySample, Motions, Struck, Fell, Tampered, Starts, Stops, Duration, Force, Turned, MotionReports.Pending;
    var Sampled(s, c, expected) := inputs[|inputs| - 1];
    SampledFlags(b, r, s, c, expected);
    StartAndPending(mc, inputs);
  }

  lemma MotionAlarmsReset(b: Books, mc: Config, inputs: seq<Input>)
    requires inputs != [] && inputs[|inputs| - 1].CountersReset?
    ensures MotionAlarmsHold(ApplyReset(b).status.flags, mc, inputs)
  {
    hide Motions, MotionReports.Pending;
    StartAndPending(mc, inputs);
  }

  lemma SampledAlarm(b: Books, r: MotionResult, s: Sample, c: Config, expected: set<Sensor>, a: Alarm)
    requires a in EVALUATED
    ensures a in ApplySample(b, r, s, c, expected).status.flags
       <==> Raises(a, s, c, expected) || (a in b.status.flags && !Clears(a, s, c, expected))
  {
    EvaluateMeans(b.status.flags + MotionFlags(r), s, c, expected, a);
    hide Evaluate, MotionEvents, Enqueue, Raises, Clears;
  }

  // ---- The count of events ----

  /** The events of the latest sample, as RaisedByHistory has them. */
  function EventsOf(stored: Statistics, mc: Config, inputs: seq<Input>): seq<Event>
    requires Stamped(inputs) && inputs != [] && inputs[|inputs| - 1].Sampled?
  {
    var Sampled(s, c, expected) := inputs[|inputs| - 1];
    var tag := After(stored, mc, inputs[..|inputs| - 1]);
    AllEvents(tag.motion, mc, tag.books.status, c, expected, s)
  }

  /** How many events have been raised since the latest reset: at most eight of each
      sample. */
  function Raised(stored: Statistics, mc: Config, inputs: seq<Input>): nat
    requires Stamped(inputs)
  {
    if inputs == [] then 0
    else
      match inputs[|inputs| - 1]
      case CountersReset => 0
      case Sampled(_, _, _) =>
        Raised(stored, mc, inputs[..|inputs| - 1]) + Min(|EventsOf(stored, mc, inputs)|, 8)
  }

  lemma {:induction false} EventCountByHistory(stored: Statistics, mc: Config, inputs: seq<Input>)
    requires Stamped(inputs) && stored.eventCount < UINT32_LIMIT
    ensures After(stored, mc, inputs).books.status.eventCount
      == Uint32(Carried(stored.eventCount, inputs) + Raised(stored, mc, inputs))
  {
    hide Process, ApplySample, EventsOf;
    if inputs != [] {
      var n := |inputs| - 1;
      EventCountByHistory(stored, mc, inputs[..n]);
      CarriedStep(stored.eventCount, inputs);
      if inputs[n].Sampled? {
        var raised := Raised(stored, mc, inputs[..n]);
        SampleRaises(stored, mc, inputs);
        Counts(After(stored, mc, inputs[..n]).books.status.eventCount, Carried(stored.eventCount, inputs[..n]), raised,
               Min(|EventsOf(stored, mc, inputs)|, 8), true);
      }
    }
  }

  lemma SampleRaises(stored: Statistics, mc: Config, inputs: seq<Input>)
    requires Stamped(inputs) && inputs != [] && inputs[|inputs| - 1].Sampled?
    ensures var before := After(stored, mc, inputs[..|inputs| - 1]).books.status.eventCount;
      After(stored, mc, inputs).books.status.eventCount
        == if EventsOf(stored, mc, inputs) == [] then before
           else Add32(before, Min(|EventsOf(stored, mc, inputs)|, 8))
  {
    hide Evaluate, MotionEvents, MotionFlags, Process, Add32;
  }
}
