/** Threshold alarms with latching and hysteresis: src/app/app_alarms.c. */
module Alarms {
  import opened SmartTag
  import opened AppConfig
  import Latch

  const MAX_EVENTS: nat := 8

  /** The alarms that this evaluator owns; the others belong to the motion events. */
  const EVALUATED: set<Alarm> := {TempHighAlarm, TempLowAlarm, HumidityHighAlarm, GasLowAlarm, BatteryLowAlarm,
                                  SensorFaultAlarm}

  function EventOf(alarm: Alarm): EventType {
    match alarm
    case TempHighAlarm => TempHigh
    case TempLowAlarm => TempLow
    case HumidityHighAlarm => HumidityHigh
    case ShockAlarm => Shock
    case FreeFallAlarm => FreeFall
    case TamperAlarm => Tamper
    case SensorFaultAlarm => SensorFault
    case BatteryLowAlarm => BatteryLow
    case GasLowAlarm => GasLow
  }

  /** A uint16_t read as an int16_t. */
  function Int16(x: nat): int {
    if x % 0x1_0000 > INT16_MAX then x % 0x1_0000 - 0x1_0000 else x % 0x1_0000
  }

  function Bit(valid: set<Sensor>, s: Sensor, weight: nat): nat {
    if s in valid then weight else 0
  }

  function MaskValue(valid: set<Sensor>): nat {
    Bit(valid, TempRh, 1) + Bit(valid, Pressure, 2) + Bit(valid, Accel, 4)
    + Bit(valid, Battery, 8) + Bit(valid, Gas, 16) + Bit(valid, Gyro, 32)
  }

  // ---- What raises and what clears each alarm ----

  predicate Raises(alarm: Alarm, s: Sample, c: Config, expected: set<Sensor>) {
    match alarm
    case TempHighAlarm => TempRh in s.valid && s.temperature > c.tempHigh
    case TempLowAlarm => TempRh in s.valid && s.temperature < c.tempLow && s.temperature <= c.tempHigh
    case HumidityHighAlarm => TempRh in s.valid && s.humidity > c.humidityHigh
    case GasLowAlarm => Gas in s.valid && c.gasLow != 0 && s.gasOhm < c.gasLow
    case BatteryLowAlarm => Battery in s.valid && s.batteryMv < c.batteryLow
    case SensorFaultAlarm => !(expected <= s.valid)
    case _ => false
  }

  predicate Clears(alarm: Alarm, s: Sample, c: Config, expected: set<Sensor>) {
    match alarm
    case TempHighAlarm => TempRh in s.valid && c.tempLow <= s.temperature <= c.tempHigh
    case TempLowAlarm => TempRh in s.valid && c.tempLow <= s.temperature <= c.tempHigh
    case HumidityHighAlarm => TempRh in s.valid && s.humidity <= c.humidityHigh
    case GasLowAlarm => Gas in s.valid && c.gasLow != 0 && s.gasOhm >= c.gasLow
    case BatteryLowAlarm =>
      && Battery in s.valid && s.batteryMv >= c.batteryLow
      && s.batteryMv >= (c.batteryLow + BATTERY_HYSTERESIS_MV) % 0x1_0000
    case SensorFaultAlarm => expected <= s.valid
    case _ => false
  }

  // ---- The evaluator ----

  /** One rule: raises its alarm, with an event if it is new, or clears it. */
  function Rule(state: (set<Alarm>, seq<Event>), alarm: Alarm, raise: bool, clear: bool, severity: Severity,
                value: int): (set<Alarm>, seq<Event>) {
    var (flags, events) := state;
    if raise then
      if alarm in flags then state else (flags + {alarm}, events + [Event(EventOf(alarm), severity, value)])
    else if clear then (flags - {alarm}, events)
    else state
  }

  function GasKiloOhm(s: Sample): int {
    if s.gasOhm / 1000 < INT16_MAX then s.gasOhm / 1000 else INT16_MAX
  }

  /** The rules in the order of the source. */
  function Climate(state: (set<Alarm>, seq<Event>), s: Sample, c: Config,
                   expected: set<Sensor>): (r: (set<Alarm>, seq<Event>))
    ensures |r.1| <= |state.1| + 2
  {
    var high := Rule(state, TempHighAlarm, Raises(TempHighAlarm, s, c, expected),
                     Clears(TempHighAlarm, s, c, expected), AlarmSeverity, s.temperature);
    var low := Rule(high, TempLowAlarm, Raises(TempLowAlarm, s, c, expected), Clears(TempLowAlarm, s, c, expected),
                    AlarmSeverity, s.temperature);
    Rule(low, HumidityHighAlarm, Raises(HumidityHighAlarm, s, c, expected), Clears(HumidityHighAlarm, s, c, expected),
         WarningSeverity, Int16(s.humidity))
  }

  function GasAndBattery(state: (set<Alarm>, seq<Event>), s: Sample, c: Config,
                         expected: set<Sensor>): (r: (set<Alarm>, seq<Event>))
    ensures |r.1| <= |state.1| + 2
  {
    var gas := Rule(state, GasLowAlarm, Raises(GasLowAlarm, s, c, expected), Clears(GasLowAlarm, s, c, expected),
                    WarningSeverity, GasKiloOhm(s));
    Rule(gas, BatteryLowAlarm, Raises(BatteryLowAlarm, s, c, expected), Clears(BatteryLowAlarm, s, c, expected),
         WarningSeverity, Int16(s.batteryMv))
  }

  function Evaluate(flags: set<Alarm>, s: Sample, c: Config, expected: set<Sensor>): (set<Alarm>, seq<Event>) {
    var readings := GasAndBattery(Climate((flags, []), s, c, expected), s, c, expected);
    Rule(readings, SensorFaultAlarm, Raises(SensorFaultAlarm, s, c, expected),
         Clears(SensorFaultAlarm, s, c, expected), WarningSeverity, MaskValue(s.valid))
  }

  /** The caller's event array, with room for MAX_EVENTS. */
  class EventBuffer {
    const events: array<Event>
    var count: nat

    ghost predicate Valid()
      reads this
    {
      events.Length == MAX_EVENTS && count <= MAX_EVENTS
    }

    ghost function Contents(): seq<Event>
      requires Valid()
      reads this, events
    {
      events[..count]
    }

    constructor ()
      ensures Valid() && Contents() == [] && fresh(events)
    {
      events := new Event[MAX_EVENTS](_ => Event(Shock, InfoSeverity, 0));
      count := 0;
    }

    /** Appends an event, unless the array is full. */
    method Emit(kind: EventType, severity: Severity, value: int)
      requires Valid()
      modifies this, events
      ensures Valid()
      ensures Contents() == if |old(Contents())| < MAX_EVENTS then old(Contents()) + [Event(kind, severity, value)]
          else old(Contents())
    {
      if count >= MAX_EVENTS {
        return;
      }
      events[count] := Event(kind, severity, value);
      count := count + 1;
    }
  }

  /** The part of the evaluation that the climate sensor decides. */
  method EvalClimate(s: Sample, c: Config, ghost expected: set<Sensor>, alarmFlags: set<Alarm>, buffer: EventBuffer)
      returns (flags: set<Alarm>)
    requires buffer.Valid() && |buffer.Contents()| + 3 <= MAX_EVENTS
    modifies buffer, buffer.events
    ensures buffer.Valid()
    ensures (flags, buffer.Contents()) == Climate((alarmFlags, old(buffer.Contents())), s, c, expected)
  {
    hide Int16;
    flags := alarmFlags;
    if TempRh in s.valid {
      if s.temperature > c.tempHigh {
        if TempHighAlarm !in flags {
          flags := flags + {TempHighAlarm};
          buffer.Emit(TempHigh, AlarmSeverity, s.temperature);
        }
      } else if s.temperature < c.tempLow {
        if TempLowAlarm !in flags {
          flags := flags + {TempLowAlarm};
          buffer.Emit(TempLow, AlarmSeverity, s.temperature);
        }
      } else {
        flags := flags - {TempHighAlarm, TempLowAlarm};
        assert flags == alarmFlags - {TempHighAlarm} - {TempLowAlarm};
      }
      if s.humidity > c.humidityHigh {
        if HumidityHighAlarm !in flags {
          flags := flags + {HumidityHighAlarm};
          buffer.Emit(HumidityHigh, WarningSeverity, Int16(s.humidity));
        }
      } else {
        flags := flags - {HumidityHighAlarm};
      }
    }
  }

  /** The gas floor (0 disables it) and the battery with its hysteresis. */
  method EvalGasAndBattery(s: Sample, c: Config, ghost expected: set<Sensor>, alarmFlags: set<Alarm>,
                           buffer: EventBuffer) returns (flags: set<Alarm>)
    requires buffer.Valid() && |buffer.Contents()| + 2 <= MAX_EVENTS
    modifies buffer, buffer.events
    ensures buffer.Valid()
    ensures (flags, buffer.Contents()) == GasAndBattery((alarmFlags, old(buffer.Contents())), s, c, expected)
  {
    hide Int16, GasKiloOhm;
    flags := alarmFlags;
    if Gas in s.valid && c.gasLow != 0 {
      if s.gasOhm < c.gasLow {
        if GasLowAlarm !in flags {
          flags := flags + {GasLowAlarm};
          buffer.Emit(GasLow, WarningSeverity, GasKiloOhm(s));
        }
      } else {
        flags := flags - {GasLowAlarm};
      }
    }
    if Battery in s.valid {
      if s.batteryMv < c.batteryLow {
        if BatteryLowAlarm !in flags {
          flags := flags + {BatteryLowAlarm};
          buffer.Emit(BatteryLow, WarningSeverity, Int16(s.batteryMv));
        }
      } else if s.batteryMv >= (c.batteryLow + BATTERY_HYSTERESIS_MV) % 0x1_0000 {
        flags := flags - {BatteryLowAlarm};
      }
    }
  }

  /** app_alarms_eval(): updates the flags from one sample and fills the buffer
      with the alarms that are new. */
  method EvalAlarms(s: Sample, c: Config, expected: set<Sensor>, alarmFlags: set<Alarm>, buffer: EventBuffer)
      returns (flags: set<Alarm>)
    requires buffer.Valid()
    modifies buffer, buffer.events
    ensures buffer.Valid()
    ensures (flags, buffer.Contents()) == Evaluate(alarmFlags, s, c, expected)
  {
    hide Climate, GasAndBattery, MaskValue;
    buffer.count := 0;
    assert buffer.Contents() == [];
    flags := EvalClimate(s, c, expected, alarmFlags, buffer);
    flags := EvalGasAndBattery(s, c, expected, flags, buffer);
    if !(expected <= s.valid) {
      if SensorFaultAlarm !in flags {
        flags := flags + {SensorFaultAlarm};
        buffer.Emit(SensorFault, WarningSeverity, MaskValue(s.valid));
      }
    } else {
      flags := flags - {SensorFaultAlarm};
    }
  }

  // ---- What one evaluation does ----

  function CountKind(events: seq<Event>, kind: EventType): nat {
    if events == [] then 0
    else CountKind(events[..|events| - 1], kind) + if events[|events| - 1].kind == kind then 1 else 0
  }

  lemma {:induction false} CountKindJoin(a: seq<Event>, b: seq<Event>, kind: EventType)
    ensures CountKind(a + b, kind) == CountKind(a, kind) + CountKind(b, kind)
    decreases |b|
  {
    if b == [] {
      assert a + b == a;
    } else {
      assert (a + b)[..|a + b| - 1] == a + b[..|b| - 1];
      CountKindJoin(a, b[..|b| - 1], kind);
    }
  }

  /** One rule changes its own alarm only, and counts one event for a rising edge. */
  lemma RuleEffect(state: (set<Alarm>, seq<Event>), alarm: Alarm, raise: bool, clear: bool, severity: Severity,
                   value: int, a: Alarm)
    requires !(raise && clear)
    ensures var r := Rule(state, alarm, raise, clear, severity, value);
      && (a in r.0 <==> if a == alarm then raise || (a in state.0 && !clear) else a in state.0)
      && CountKind(r.1, EventOf(a)) == CountKind(state.1, EventOf(a))
          + (if a == alarm && raise && a !in state.0 then 1 else 0)
      && (r.1 == state.1 || (r.1 == state.1 + [Event(EventOf(alarm), severity, value)] && raise))
  {
    var event := Event(EventOf(alarm), severity, value);
    CountKindJoin(state.1, [event], EventOf(a));
    assert [event][..0] == [];
  }

  lemma NeverBoth(alarm: Alarm, s: Sample, c: Config, expected: set<Sensor>)
    ensures !(Raises(alarm, s, c, expected) && Clears(alarm, s, c, expected))
  {
  }

  /** An evaluation sets exactly the alarms that the sample raises, drops exactly
      those it clears, never touches the motion alarms, and reports one event for
      each alarm that is new and none for any other. */
  lemma EvaluateMeans(flags: set<Alarm>, s: Sample, c: Config, expected: set<Sensor>, a: Alarm)
    ensures var r := Evaluate(flags, s, c, expected);
      && (a in r.0 <==> Raises(a, s, c, expected) || (a in flags && !Clears(a, s, c, expected)))
      && CountKind(r.1, EventOf(a)) == (if a in r.0 && a !in flags then 1 else 0)
  {
    hide Climate, GasAndBattery, Rule, CountKind, MaskValue, Raises, Clears;
    var climate := Climate((flags, []), s, c, expected);
    var readings := GasAndBattery(climate, s, c, expected);
    CountNothing(EventOf(a));
    ClimateMeans((flags, []), s, c, expected, a);
    GasAndBatteryMeans(climate, s, c, expected, a);
    NeverBoth(SensorFaultAlarm, s, c, expected);
    RuleEffect(readings, SensorFaultAlarm, Raises(SensorFaultAlarm, s, c, expected),
               Clears(SensorFaultAlarm, s, c, expected), WarningSeverity, MaskValue(s.valid), a);
    OthersStay(a, s, c, expected);
  }

  /** An alarm that some rules of an evaluation are in charge of. */
  ghost predicate Effect(mine: set<Alarm>, state: (set<Alarm>, seq<Event>), r: (set<Alarm>, seq<Event>), s: Sample,
                         c: Config, expected: set<Sensor>, a: Alarm) {
    && (a in r.0 <==> if a in mine then Raises(a, s, c, expected) || (a in state.0 && !Clears(a, s, c, expected))
        else a in state.0)
    && CountKind(r.1, EventOf(a)) == CountKind(state.1, EventOf(a))
        + (if a in mine && Raises(a, s, c, expected) && a !in state.0 then 1 else 0)
  }

  lemma ClimateMeans(state: (set<Alarm>, seq<Event>), s: Sample, c: Config, expected: set<Sensor>, a: Alarm)
    ensures Effect({TempHighAlarm, TempLowAlarm, HumidityHighAlarm}, state, Climate(state, s, c, expected), s, c,
                   expected, a)
  {
    hide Rule, CountKind, Int16, Raises, Clears;
    var high := Rule(state, TempHighAlarm, Raises(TempHighAlarm, s, c, expected),
                     Clears(TempHighAlarm, s, c, expected), AlarmSeverity, s.temperature);
    var low := Rule(high, TempLowAlarm, Raises(TempLowAlarm, s, c, expected), Clears(TempLowAlarm, s, c, expected),
                    AlarmSeverity, s.temperature);
    NeverBoth(TempHighAlarm, s, c, expected);
    NeverBoth(TempLowAlarm, s, c, expected);
    NeverBoth(HumidityHighAlarm, s, c, expected);
    RuleEffect(state, TempHighAlarm, Raises(TempHighAlarm, s, c, expected), Clears(TempHighAlarm, s, c, expected),
               AlarmSeverity, s.temperature, a);
    RuleEffect(high, TempLowAlarm, Raises(TempLowAlarm, s, c, expected), Clears(TempLowAlarm, s, c, expected),
               AlarmSeverity, s.temperature, a);
    RuleEffect(low, HumidityHighAlarm, Raises(HumidityHighAlarm, s, c, expected),
               Clears(HumidityHighAlarm, s, c, expected), WarningSeverity, Int16(s.humidity), a);
  }

  lemma GasAndBatteryMeans(state: (set<Alarm>, seq<Event>), s: Sample, c: Config, expected: set<Sensor>, a: Alarm)
    ensures Effect({GasLowAlarm, BatteryLowAlarm}, state, GasAndBattery(state, s, c, expected), s, c, expected, a)
  {
    hide Rule, CountKind, Int16, GasKiloOhm, Raises, Clears;
    var gas := Rule(state, GasLowAlarm, Raises(GasLowAlarm, s, c, expected), Clears(GasLowAlarm, s, c, expected),
                    WarningSeverity, GasKiloOhm(s));
    NeverBoth(GasLowAlarm, s, c, expected);
    NeverBoth(BatteryLowAlarm, s, c, expected);
    RuleEffect(state, GasLowAlarm, Raises(GasLowAlarm, s, c, expected), Clears(GasLowAlarm, s, c, expected),
               WarningSeverity, GasKiloOhm(s), a);
    RuleEffect(gas, BatteryLowAlarm, Raises(BatteryLowAlarm, s, c, expected), Clears(BatteryLowAlarm, s, c, expected),
               WarningSeverity, Int16(s.batteryMv), a);
  }

  /** The motion alarms are none of the evaluator's business. */
  lemma OthersStay(a: Alarm, s: Sample, c: Config, expected: set<Sensor>)
    ensures a !in EVALUATED ==> !Raises(a, s, c, expected) && !Clears(a, s, c, expected)
  {
  }

  lemma CountNothing(kind: EventType)
    ensures CountKind([], kind) == 0
  {
  }

  // ---- The evaluation in plain terms ----

  function When(occurred: bool, event: Event): seq<Event> {
    if occurred then [event] else []
  }

  /** The 16 bits of an unsigned field read as signed. */
  function Signed(x: nat): int {
    if x < 0x8000 then x else x - 0x1_0000
  }

  /** A whole number of kilo-ohms, as many as an int16_t can hold. */
  function KiloOhms(ohm: nat): nat {
    if ohm >= 32_767_000 then 32_767 else ohm / 1000
  }

  /** The events of an evaluation, with their kind, severity and value, in order:
      an alarm is reported when its condition holds and it was not set before. */
  lemma ReportedExactly(flags: set<Alarm>, s: Sample, c: Config, expected: set<Sensor>)
    requires s.humidity <= 0xffff && s.batteryMv <= 0xffff
    ensures Evaluate(flags, s, c, expected).1 ==
      When(TempRh in s.valid && s.temperature > c.tempHigh && TempHighAlarm !in flags,
           Event(TempHigh, AlarmSeverity, s.temperature))
      + When(TempRh in s.valid && s.temperature < c.tempLow && s.temperature <= c.tempHigh && TempLowAlarm !in flags,
             Event(TempLow, AlarmSeverity, s.temperature))
      + When(TempRh in s.valid && s.humidity > c.humidityHigh && HumidityHighAlarm !in flags,
             Event(HumidityHigh, WarningSeverity, Signed(s.humidity)))
      + When(Gas in s.valid && 0 < c.gasLow && s.gasOhm < c.gasLow && GasLowAlarm !in flags,
             Event(GasLow, WarningSeverity, KiloOhms(s.gasOhm)))
      + When(Battery in s.valid && s.batteryMv < c.batteryLow && BatteryLowAlarm !in flags,
             Event(BatteryLow, WarningSeverity, Signed(s.batteryMv)))
      + When(!(expected <= s.valid) && SensorFaultAlarm !in flags,
             Event(SensorFault, WarningSeverity, MaskValue(s.valid)))
  {
    hide MaskValue, Climate, GasAndBattery, Rule, When, Signed, KiloOhms;
    var climate := Climate((flags, []), s, c, expected);
    var readings := GasAndBattery(climate, s, c, expected);
    ClimateReports((flags, []), s, c, expected);
    GasAndBatteryReports(climate, s, c, expected);
    RuleReports(readings, SensorFaultAlarm, Raises(SensorFaultAlarm, s, c, expected),
                Clears(SensorFaultAlarm, s, c, expected), WarningSeverity, MaskValue(s.valid));
  }

  lemma RuleReports(state: (set<Alarm>, seq<Event>), alarm: Alarm, raise: bool, clear: bool, severity: Severity,
                    value: int)
    ensures var r := Rule(state, alarm, raise, clear, severity, value);
      && r.1 == state.1 + When(raise && alarm !in state.0, Event(EventOf(alarm), severity, value))
      && forall a :: a != alarm ==> (a in r.0 <==> a in state.0)
  {
  }

  lemma ClimateReports(state: (set<Alarm>, seq<Event>), s: Sample, c: Config, expected: set<Sensor>)
    requires s.humidity <= 0xffff && s.batteryMv <= 0xffff
    ensures var r := Climate(state, s, c, expected);
      && r.1 == state.1
           + When(TempRh in s.valid && s.temperature > c.tempHigh && TempHighAlarm !in state.0,
                  Event(TempHigh, AlarmSeverity, s.temperature))
           + When(TempRh in s.valid && s.temperature < c.tempLow && s.temperature <= c.tempHigh
                  && TempLowAlarm !in state.0,
                  Event(TempLow, AlarmSeverity, s.temperature))
           + When(TempRh in s.valid && s.humidity > c.humidityHigh && HumidityHighAlarm !in state.0,
                  Event(HumidityHigh, WarningSeverity, Signed(s.humidity)))
      && forall a :: a != TempHighAlarm && a != TempLowAlarm && a != HumidityHighAlarm ==> (a in r.0 <==> a in state.0)
  {
    SameNumbers(s);
    hide Rule, When, Int16, Signed;
    var high := Rule(state, TempHighAlarm, Raises(TempHighAlarm, s, c, expected), Clears(TempHighAlarm, s, c, expected),
                     AlarmSeverity, s.temperature);
    var low := Rule(high, TempLowAlarm, Raises(TempLowAlarm, s, c, expected), Clears(TempLowAlarm, s, c, expected),
                    AlarmSeverity, s.temperature);
    RuleReports(state, TempHighAlarm, Raises(TempHighAlarm, s, c, expected), Clears(TempHighAlarm, s, c, expected),
                AlarmSeverity, s.temperature);
    RuleReports(high, TempLowAlarm, Raises(TempLowAlarm, s, c, expected), Clears(TempLowAlarm, s, c, expected),
                AlarmSeverity, s.temperature);
    RuleReports(low, HumidityHighAlarm, Raises(HumidityHighAlarm, s, c, expected),
                Clears(HumidityHighAlarm, s, c, expected), WarningSeverity, Int16(s.humidity));
  }

  lemma GasAndBatteryReports(state: (set<Alarm>, seq<Event>), s: Sample, c: Config, expected: set<Sensor>)
    requires s.humidity <= 0xffff && s.batteryMv <= 0xffff
    ensures var r := GasAndBattery(state, s, c, expected);
      && r.1 == state.1
           + When(Gas in s.valid && 0 < c.gasLow && s.gasOhm < c.gasLow && GasLowAlarm !in state.0,
                  Event(GasLow, WarningSeverity, KiloOhms(s.gasOhm)))
           + When(Battery in s.valid && s.batteryMv < c.batteryLow && BatteryLowAlarm !in state.0,
                  Event(BatteryLow, WarningSeverity, Signed(s.batteryMv)))
      && forall a :: a != GasLowAlarm && a != BatteryLowAlarm ==> (a in r.0 <==> a in state.0)
  {
    SameNumbers(s);
    hide Rule, When, Int16, Signed, GasKiloOhm, KiloOhms;
    var gas := Rule(state, GasLowAlarm, Raises(GasLowAlarm, s, c, expected), Clears(GasLowAlarm, s, c, expected),
                    WarningSeverity, GasKiloOhm(s));
    RuleReports(state, GasLowAlarm, Raises(GasLowAlarm, s, c, expected), Clears(GasLowAlarm, s, c, expected),
                WarningSeverity, GasKiloOhm(s));
    RuleReports(gas, BatteryLowAlarm, Raises(BatteryLowAlarm, s, c, expected), Clears(BatteryLowAlarm, s, c, expected),
                WarningSeverity, Int16(s.batteryMv));
  }

  lemma SameNumbers(s: Sample)
    requires s.humidity <= 0xffff && s.batteryMv <= 0xffff
    ensures Int16(s.humidity) == Signed(s.humidity) && Int16(s.batteryMv) == Signed(s.batteryMv)
    ensures GasKiloOhm(s) == KiloOhms(s.gasOhm)
  {
  }

  /** Bit k of the fault's value says whether the k-th sensor has delivered. */
  lemma MaskBits(valid: set<Sensor>)
    ensures MaskValue(valid) < 64
    ensures MaskValue(valid) % 2 == 1 <==> TempRh in valid
    ensures MaskValue(valid) / 2 % 2 == 1 <==> Pressure in valid
    ensures MaskValue(valid) / 4 % 2 == 1 <==> Accel in valid
    ensures MaskValue(valid) / 8 % 2 == 1 <==> Battery in valid
    ensures MaskValue(valid) / 16 % 2 == 1 <==> Gas in valid
    ensures MaskValue(valid) / 32 % 2 == 1 <==> Gyro in valid
  {
    SixBits(Bit(valid, TempRh, 1), Bit(valid, Pressure, 1), Bit(valid, Accel, 1), Bit(valid, Battery, 1),
            Bit(valid, Gas, 1),
            Bit(valid, Gyro, 1));
    assert MaskValue(valid)
        == Bit(valid, TempRh, 1) + 2 * Bit(valid, Pressure, 1) + 4 * Bit(valid, Accel, 1) + 8 * Bit(valid, Battery, 1)
         + 16 * Bit(valid, Gas, 1) + 32 * Bit(valid, Gyro, 1);
  }

  lemma SixBits(b0: nat, b1: nat, b2: nat, b3: nat, b4: nat, b5: nat)
    requires b0 <= 1 && b1 <= 1 && b2 <= 1 && b3 <= 1 && b4 <= 1 && b5 <= 1
    ensures var v := b0 + 2 * b1 + 4 * b2 + 8 * b3 + 16 * b4 + 32 * b5;
      && v % 2 == b0 && v / 2 % 2 == b1 && v / 4 % 2 == b2 && v / 8 % 2 == b3 && v / 16 % 2 == b4 && v / 32 % 2 == b5
  {
    var v := b0 + 2 * b1 + 4 * b2 + 8 * b3 + 16 * b4 + 32 * b5;
    assert v / 2 == b1 + 2 * b2 + 4 * b3 + 8 * b4 + 16 * b5;
    assert v / 4 == b2 + 2 * b3 + 4 * b4 + 8 * b5;
    assert v / 8 == b3 + 2 * b4 + 4 * b5;
    assert v / 16 == b4 + 2 * b5;
    assert v / 32 == b5;
  }

  /** The alarms after an evaluation: what sets and what clears each of them. */
  lemma FlagsExactly(flags: set<Alarm>, s: Sample, c: Config, expected: set<Sensor>)
    ensures var after := Evaluate(flags, s, c, expected).0;
      && (TempHighAlarm in after <==>
            if TempRh !in s.valid || (s.temperature < c.tempLow && s.temperature <= c.tempHigh)
                then TempHighAlarm in flags
            else s.temperature > c.tempHigh)
      && (TempLowAlarm in after <==>
            if TempRh !in s.valid || s.temperature > c.tempHigh then TempLowAlarm in flags
            else s.temperature < c.tempLow)
      && (HumidityHighAlarm in after <==>
            if TempRh !in s.valid then HumidityHighAlarm in flags else s.humidity > c.humidityHigh)
      && (GasLowAlarm in after <==>
            if Gas !in s.valid || c.gasLow == 0 then GasLowAlarm in flags else s.gasOhm < c.gasLow)
      && (BatteryLowAlarm in after <==>
            (Battery in s.valid && s.batteryMv < c.batteryLow)
            || (BatteryLowAlarm in flags && !(Battery in s.valid && s.batteryMv >= (c.batteryLow + 100) % 0x1_0000)))
      && (SensorFaultAlarm in after <==> !(expected <= s.valid))
      && (ShockAlarm in after <==> ShockAlarm in flags) && (FreeFallAlarm in after <==> FreeFallAlarm in flags)
      && (TamperAlarm in after <==> TamperAlarm in flags)
  {
    hide Evaluate;
    forall a { EvaluateMeans(flags, s, c, expected, a); }
  }

  // ---- Traces ----

  /** An evaluation, or anything else that happens to the alarm flags in between:
      motion events set the motion alarms and a counter reset clears them. */
  datatype Turn =
    | Evaluated(sample: Sample, config: Config, expected: set<Sensor>)
    | Elsewhere(raised: set<Alarm>, cleared: set<Alarm>)

  function TakeTurn(flags: set<Alarm>, turn: Turn): (set<Alarm>, seq<Event>) {
    match turn
    case Evaluated(s, c, expected) => Evaluate(flags, s, c, expected)
    case Elsewhere(raised, cleared) => (flags + (raised - EVALUATED) - (cleared - EVALUATED), [])
  }

  function FlagsAfter(flags: set<Alarm>, turns: seq<Turn>): set<Alarm> {
    if turns == [] then flags else TakeTurn(FlagsAfter(flags, turns[..|turns| - 1]), turns[|turns| - 1]).0
  }

  function EventsAt(flags: set<Alarm>, turns: seq<Turn>, k: nat): seq<Event>
    requires k < |turns|
  {
    TakeTurn(FlagsAfter(flags, turns[..k]), turns[k]).1
  }

  function Rising(flags: set<Alarm>, turns: seq<Turn>, a: Alarm): nat {
    if turns == [] then 0
    else
      var before := turns[..|turns| - 1];
      Rising(flags, before, a) + if a !in FlagsAfter(flags, before) && a in FlagsAfter(flags, turns) then 1 else 0
  }

  function Reported(flags: set<Alarm>, turns: seq<Turn>, a: Alarm): nat {
    if turns == [] then 0
    else
      var before := turns[..|turns| - 1];
      Reported(flags, before, a) + CountKind(TakeTurn(FlagsAfter(flags, before), turns[|turns| - 1]).1, EventOf(a))
  }

  /** Over any trace the events of an alarm are as many as its rising edges. */
  lemma {:induction false} EventsAreRisingEdges(flags: set<Alarm>, turns: seq<Turn>, a: Alarm)
    requires a in EVALUATED
    ensures Reported(flags, turns, a) == Rising(flags, turns, a)
  {
    hide Evaluate, CountKind;
    if turns != [] {
      var n := |turns| - 1;
      EventsAreRisingEdges(flags, turns[..n], a);
      match turns[n]
      case Evaluated(s, c, expected) => EvaluateMeans(FlagsAfter(flags, turns[..n]), s, c, expected, a);
      case Elsewhere(_, _) => CountNothing(EventOf(a));
    }
  }

  /** The sample of a turn that clears alarm a. */
  predicate ClearsAt(turn: Turn, a: Alarm) {
    turn.Evaluated? && Clears(a, turn.sample, turn.config, turn.expected)
  }

  predicate FiresAt(flags: set<Alarm>, turns: seq<Turn>, k: nat, a: Alarm)
    requires k < |turns|
  {
    CountKind(EventsAt(flags, turns, k), EventOf(a)) > 0
  }

  function AlarmSteps(flags: set<Alarm>, turns: seq<Turn>, a: Alarm): (steps: seq<Latch.Step>)
    ensures |steps| == |turns|
  {
    seq(|turns|, k requires 0 <= k < |turns| =>
      Latch.Step(a in FlagsAfter(flags, turns[..k]), a in FlagsAfter(flags, turns[..k + 1]),
                 FiresAt(flags, turns, k, a), ClearsAt(turns[k], a)))
  }

  lemma TurnObeys(flags: set<Alarm>, turn: Turn, a: Alarm)
    requires a in EVALUATED
    ensures Latch.Obeys(Latch.Step(a in flags, a in TakeTurn(flags, turn).0,
                                   CountKind(TakeTurn(flags, turn).1, EventOf(a)) > 0, ClearsAt(turn, a)))
  {
    hide Evaluate, CountKind;
    match turn
    case Evaluated(s, c, expected) => EvaluateMeans(flags, s, c, expected, a);
    case Elsewhere(_, _) => CountNothing(EventOf(a));
  }

  lemma FlagsOne(flags: set<Alarm>, turns: seq<Turn>, k: nat)
    requires k < |turns|
    ensures FlagsAfter(flags, turns[..k + 1]) == TakeTurn(FlagsAfter(flags, turns[..k]), turns[k]).0
  {
    assert turns[..k + 1][..k] == turns[..k];
  }

  /** Re-arming: between two events of an alarm lies a sample that clears it. */
  lemma AlarmRearms(flags: set<Alarm>, turns: seq<Turn>, a: Alarm, i: nat, j: nat) returns (k: nat)
    requires a in EVALUATED && i < j < |turns| && FiresAt(flags, turns, i, a) && FiresAt(flags, turns, j, a)
    ensures i < k < j && ClearsAt(turns[k], a)
  {
    hide TakeTurn, FlagsAfter, CountKind;
    var steps := AlarmSteps(flags, turns, a);
    forall n | 0 <= n < |turns| ensures Latch.Obeys(steps[n]) {
      FlagsOne(flags, turns, n);
      TurnObeys(FlagsAfter(flags, turns[..n]), turns[n], a);
    }
    assert Latch.Obeys(steps[i]);
    k := Latch.RearmedBetween(steps, i, j);
  }

  /** Between two battery warnings the battery was at least 100 mV above its
      threshold. */
  lemma BatteryRearms(flags: set<Alarm>, turns: seq<Turn>, i: nat, j: nat) returns (k: nat)
    requires forall n :: 0 <= n < |turns| && turns[n].Evaluated? ==> Validated(turns[n].config)
    requires i < j < |turns| && FiresAt(flags, turns, i, BatteryLowAlarm) && FiresAt(flags, turns, j, BatteryLowAlarm)
    ensures i < k < j && turns[k].Evaluated?
    ensures Battery in turns[k].sample.valid
    ensures turns[k].sample.batteryMv >= turns[k].config.batteryLow + BATTERY_HYSTERESIS_MV
  {
    hide FiresAt;
    k := AlarmRearms(flags, turns, BatteryLowAlarm, i, j);
  }

  /** Between two temperature alarms of the same kind the temperature was inside
      the window, whatever the configuration. */
  lemma TemperatureRearms(flags: set<Alarm>, turns: seq<Turn>, a: Alarm, i: nat, j: nat) returns (k: nat)
    requires a == TempHighAlarm || a == TempLowAlarm
    requires i < j < |turns| && FiresAt(flags, turns, i, a) && FiresAt(flags, turns, j, a)
    ensures i < k < j && turns[k].Evaluated? && TempRh in turns[k].sample.valid
    ensures turns[k].config.tempLow <= turns[k].sample.temperature <= turns[k].config.tempHigh
  {
    hide FiresAt;
    k := AlarmRearms(flags, turns, a, i, j);
  }
}
