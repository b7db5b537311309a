/** What the bounded event queue of a sample can lose. */
module EventQueue {
  import opened SmartTag
  import opened AppConfig
  import opened MotionClassifier
  import opened MotionManager
  import opened Alarms
  import opened AppState
  import SensorMath

  /** The alarm-severity events of a list, in order. */
  function Urgent(events: seq<Event>): seq<Event> {
    if events == [] then []
    else
      var last := events[|events| - 1];
      Urgent(events[..|events| - 1]) + if last.severity == AlarmSeverity then [last] else []
  }

  lemma {:induction false} UrgentJoin(a: seq<Event>, b: seq<Event>)
    ensures Urgent(a + b) == Urgent(a) + Urgent(b)
    decreases |b|
  {
    if b == [] {
      assert a + b == a;
    } else {
      assert (a + b)[..|a + b| - 1] == a + b[..|b| - 1];
      UrgentJoin(a, b[..|b| - 1]);
    }
  }

  lemma {:induction false} NothingUrgent(events: seq<Event>)
    requires forall k :: 0 <= k < |events| ==> events[k].severity != AlarmSeverity
    ensures Urgent(events) == []
  {
    if events != [] {
      NothingUrgent(events[..|events| - 1]);
    }
  }

  predicate Warnings(events: seq<Event>) {
    forall k :: 0 <= k < |events| ==> events[k].severity == WarningSeverity
  }

  /** One rule adds at most its own event. */
  lemma RuleAdds(state: (set<Alarm>, seq<Event>), alarm: Alarm, raise: bool, clear: bool, severity: Severity,
                 value: int) returns (added: seq<Event>)
    ensures Rule(state, alarm, raise, clear, severity, value).1 == state.1 + added
    ensures |added| <= 1 && (!raise ==> added == [])
    ensures forall k :: 0 <= k < |added| ==> added[k] == Event(EventOf(alarm), severity, value)
  {
    added := if raise && alarm !in state.0 then [Event(EventOf(alarm), severity, value)] else [];
  }

  lemma ClimateShape(state: (set<Alarm>, seq<Event>), s: Sample, c: Config, expected: set<Sensor>)
    returns (temperature: seq<Event>, humidity: seq<Event>)
    ensures Climate(state, s, c, expected).1 == state.1 + temperature + humidity
    ensures |temperature| <= 1 && |humidity| <= 1 && Warnings(humidity)
  {
    hide Rule, Int16;
    var high := RuleAdds(state, TempHighAlarm, Raises(TempHighAlarm, s, c, expected),
                         Clears(TempHighAlarm, s, c, expected), AlarmSeverity, s.temperature);
    var s1 := Rule(state, TempHighAlarm, Raises(TempHighAlarm, s, c, expected), Clears(TempHighAlarm, s, c, expected),
                   AlarmSeverity, s.temperature);
    var low := RuleAdds(s1, TempLowAlarm, Raises(TempLowAlarm, s, c, expected), Clears(TempLowAlarm, s, c, expected),
                        AlarmSeverity, s.temperature);
    var s2 := Rule(s1, TempLowAlarm, Raises(TempLowAlarm, s, c, expected), Clears(TempLowAlarm, s, c, expected),
                   AlarmSeverity, s.temperature);
    humidity := RuleAdds(s2, HumidityHighAlarm, Raises(HumidityHighAlarm, s, c, expected),
                         Clears(HumidityHighAlarm, s, c, expected), WarningSeverity, Int16(s.humidity));
    temperature := high + low;
  }

  lemma GasAndBatteryShape(state: (set<Alarm>, seq<Event>), s: Sample, c: Config, expected: set<Sensor>)
      returns (warnings: seq<Event>)
    ensures GasAndBattery(state, s, c, expected).1 == state.1 + warnings
    ensures |warnings| <= 2 && Warnings(warnings)
  {
    hide Rule, Int16, GasKiloOhm;
    var gas := RuleAdds(state, GasLowAlarm, Raises(GasLowAlarm, s, c, expected), Clears(GasLowAlarm, s, c, expected),
                        WarningSeverity, GasKiloOhm(s));
    var s1 := Rule(state, GasLowAlarm, Raises(GasLowAlarm, s, c, expected), Clears(GasLowAlarm, s, c, expected),
                   WarningSeverity, GasKiloOhm(s));
    var battery := RuleAdds(s1, BatteryLowAlarm, Raises(BatteryLowAlarm, s, c, expected),
                            Clears(BatteryLowAlarm, s, c, expected), WarningSeverity, Int16(s.batteryMv));
    warnings := gas + battery;
  }

  /** The alarms of a sample, in order: one temperature alarm at most, warnings,
      and last, if at all, the sensor fault. */
  lemma EvaluateShape(flags: set<Alarm>, s: Sample, c: Config, expected: set<Sensor>)
    returns (temperature: seq<Event>, warnings: seq<Event>, fault: seq<Event>)
    ensures Evaluate(flags, s, c, expected).1 == temperature + warnings + fault
    ensures |temperature| <= 1 && |warnings| <= 3 && |fault| <= 1
    ensures Warnings(warnings)
    ensures forall k :: 0 <= k < |fault| ==> fault[k] == Event(SensorFault, WarningSeverity, MaskValue(s.valid))
  {
    hide Rule, MaskValue, Climate, GasAndBattery;
    var climate, readings := Climate((flags, []), s, c, expected),
        GasAndBattery(Climate((flags, []), s, c, expected), s, c, expected);
    var humidity: seq<Event>;
    temperature, humidity := ClimateShape((flags, []), s, c, expected);
    var others := GasAndBatteryShape(climate, s, c, expected);
    fault := RuleAdds(readings, SensorFaultAlarm, Raises(SensorFaultAlarm, s, c, expected),
                      Clears(SensorFaultAlarm, s, c, expected), WarningSeverity, MaskValue(s.valid));
    warnings := humidity + others;
  }

  // ---- Alarm-severity events are never lost ----

  lemma EnqueuePrefix(first: seq<Event>, rest: seq<Event>, room: nat)
    requires |first| <= MAX_PENDING
    requires room == if |first| + |rest| <= MAX_PENDING then |rest| else MAX_PENDING - |first|
    ensures Enqueue([], first + rest) == first + rest[..room]
  {
  }

  /** The first part of a sample's events fits the queue, and all that is urgent is in it. */
  lemma UrgentComesFirst(first: seq<Event>, rest: seq<Event>)
    requires |first| <= MAX_PENDING && forall k :: 0 <= k < |rest| ==> rest[k].severity != AlarmSeverity
    ensures Urgent(Enqueue([], first + rest)) == Urgent(first + rest) == Urgent(first)
  {
    hide Enqueue, Urgent;
    var room := if |first| + |rest| <= MAX_PENDING then |rest| else MAX_PENDING - |first|;
    EnqueuePrefix(first, rest, room);
    UrgentJoin(first, rest[..room]);
    UrgentJoin(first, rest);
    NothingUrgent(rest[..room]);
    NothingUrgent(rest);
  }

  lemma MotionEventsBound(m: Motion, mc: Config, s: Sample)
    requires m.Fits() && s.timestamp < UINT32_LIMIT
    ensures var r := Process(m, mc, s).1;
      && |MotionEvents(r)| <= 5
      && !(r.start && r.stop) && (r.tamper ==> r.turned && r.shock && !r.stop)
      && (r.shock || r.freeFall || r.turned ==> Accel in s.valid)
      && (r.shock ==> Abs(Deviation(s)) > mc.shockThreshold)
      && (r.freeFall ==> s.magnitude < mc.freeFallThreshold)
      && (r.turned ==> OrientationOf(s) != Unknown)
  {
  }

  /** For every sample and every state of the detectors, the shock, free-fall,
      tamper and temperature events of the sample are all raised, in order. */
  lemma NoAlarmEventLost(m: Motion, mc: Config, st: Status, c: Config, expected: set<Sensor>, s: Sample)
    requires m.Fits() && s.timestamp < UINT32_LIMIT
    ensures var all := AllEvents(m, mc, st, c, expected, s);
      Urgent(Enqueue([], all)) == Urgent(all)
  {
    var r := Process(m, mc, s).1;
    MotionEventsBound(m, mc, s);
    hide Process, Evaluate, MotionEvents, Urgent, Enqueue;
    var temperature, warnings, fault := EvaluateShape(st.flags + MotionFlags(r), s, c, expected);
    assert MotionEvents(r) + (temperature + warnings + fault) == (MotionEvents(r) + temperature) + (warnings + fault);
    UrgentComesFirst(MotionEvents(r) + temperature, warnings + fault);
  }

  // ---- What can be lost ----

  function One(b: bool): nat {
    if b then 1 else 0
  }

  lemma MotionEventsCount(r: MotionResult)
    ensures |MotionEvents(r)| == One(r.start) + One(r.stop) + One(r.shock) + One(r.freeFall) + One(r.turned)
        + One(r.tamper)
  {
  }

  /** With a validated configuration and a true magnitude, a shock, a free fall and
      a turn never come together, so one sample moves at most four events, and four
      only if it starts a movement and is tampering. */
  lemma AtMostFourMotionEvents(m: Motion, mc: Config, s: Sample)
    requires m.Fits() && s.timestamp < UINT32_LIMIT && Validated(mc)
    requires Accel in s.valid ==> SensorMath.HasMagnitude(s)
    ensures var r := Process(m, mc, s).1;
      |MotionEvents(r)| <= 4 && (|MotionEvents(r)| == 4 <==> r.start && r.tamper)
  {
    var r := Process(m, mc, s).1;
    MotionEventsBound(m, mc, s);
    hide Process, MotionEvents;
    MotionEventsCount(r);
    if r.shock && r.freeFall && r.turned {
      FacingAndFallingIsCalm(s);
      assert false;
    }
  }

  /** At most one event of a sample is dropped, and it is the sensor-fault warning,
      the last of nine. */
  lemma OnlyTheFaultWarningCanBeLost(m: Motion, mc: Config, st: Status, c: Config, expected: set<Sensor>, s: Sample)
    requires m.Fits() && s.timestamp < UINT32_LIMIT && Validated(mc)
    requires Accel in s.valid ==> SensorMath.HasMagnitude(s)
    ensures var all := AllEvents(m, mc, st, c, expected, s);
      var raised := Enqueue([], all);
      raised == all || (|all| == MAX_PENDING + 1 && all == raised
                        + [Event(SensorFault, WarningSeverity, MaskValue(s.valid))])
  {
    AtMostFourMotionEvents(m, mc, s);
    hide Process, Evaluate, MotionEvents, MaskValue, Enqueue;
    var r := Process(m, mc, s).1;
    var temperature, warnings, fault := EvaluateShape(st.flags + MotionFlags(r), s, c, expected);
    OverflowIsLast(MotionEvents(r), temperature, warnings, fault,
                   Event(SensorFault, WarningSeverity, MaskValue(s.valid)));
  }

  lemma OverflowIsLast(motion: seq<Event>, temperature: seq<Event>, warnings: seq<Event>, fault: seq<Event>,
                       last: Event)
    requires |motion| <= 4 && |temperature| <= 1 && |warnings| <= 3 && |fault| <= 1
    requires forall k :: 0 <= k < |fault| ==> fault[k] == last
    ensures var all := motion + (temperature + warnings + fault);
      Enqueue([], all) == all || (|all| == MAX_PENDING + 1 && all == Enqueue([], all) + [last])
  {
    hide Enqueue;
    var first := motion + temperature + warnings;
    assert motion + (temperature + warnings + fault) == first + fault;
    DropsLast(first, fault);
    if |first + fault| > MAX_PENDING {
      assert fault == [last];
    }
  }

  // ---- Exactly when ----

  /** An alarm that a sample raises and that was not set before. */
  predicate NewlyRaised(a: Alarm, flags: set<Alarm>, s: Sample, c: Config, expected: set<Sensor>) {
    Raises(a, s, c, expected) && a !in flags
  }

  /** One rule adds one event for a newly raised alarm and leaves the others alone. */
  lemma RuleCounts(state: (set<Alarm>, seq<Event>), alarm: Alarm, raise: bool, clear: bool, severity: Severity,
                   value: int)
    ensures var r := Rule(state, alarm, raise, clear, severity, value);
      && |r.1| == |state.1| + One(raise && alarm !in state.0)
      && r.0 - {alarm} == state.0 - {alarm}
  {
  }

  lemma ClimateCounts(state: (set<Alarm>, seq<Event>), s: Sample, c: Config, expected: set<Sensor>)
    ensures var r := Climate(state, s, c, expected);
      && |r.1| == |state.1| + One(NewlyRaised(TempHighAlarm, state.0, s, c, expected)
                                  || NewlyRaised(TempLowAlarm, state.0, s, c, expected))
                            + One(NewlyRaised(HumidityHighAlarm, state.0, s, c, expected))
      && forall a :: a != TempHighAlarm && a != TempLowAlarm && a != HumidityHighAlarm ==> (a in r.0 <==> a in state.0)
  {
    hide Rule, Int16;
    RuleCounts(state, TempHighAlarm, Raises(TempHighAlarm, s, c, expected), Clears(TempHighAlarm, s, c, expected),
               AlarmSeverity, s.temperature);
    var s1 := Rule(state, TempHighAlarm, Raises(TempHighAlarm, s, c, expected), Clears(TempHighAlarm, s, c, expected),
                   AlarmSeverity, s.temperature);
    RuleCounts(s1, TempLowAlarm, Raises(TempLowAlarm, s, c, expected), Clears(TempLowAlarm, s, c, expected),
               AlarmSeverity, s.temperature);
    var s2 := Rule(s1, TempLowAlarm, Raises(TempLowAlarm, s, c, expected), Clears(TempLowAlarm, s, c, expected),
                   AlarmSeverity, s.temperature);
    RuleCounts(s2, HumidityHighAlarm, Raises(HumidityHighAlarm, s, c, expected),
               Clears(HumidityHighAlarm, s, c, expected), WarningSeverity, Int16(s.humidity));
    Others(state.0, s1.0, TempHighAlarm);
    Others(s1.0, s2.0, TempLowAlarm);
    Others(s2.0, Climate(state, s, c, expected).0, HumidityHighAlarm);
  }

  lemma Others(before: set<Alarm>, after: set<Alarm>, alarm: Alarm)
    requires after - {alarm} == before - {alarm}
    ensures forall a :: a != alarm ==> (a in after <==> a in before)
  {
    forall a | a != alarm ensures a in after <==> a in before {
      assert a in after - {alarm} <==> a in before - {alarm};
    }
  }

  lemma GasAndBatteryCounts(state: (set<Alarm>, seq<Event>), s: Sample, c: Config, expected: set<Sensor>)
    ensures var r := GasAndBattery(state, s, c, expected);
      && |r.1| == |state.1| + One(NewlyRaised(GasLowAlarm, state.0, s, c, expected))
          + One(NewlyRaised(BatteryLowAlarm, state.0, s, c, expected))
      && (SensorFaultAlarm in r.0 <==> SensorFaultAlarm in state.0)
  {
    hide Rule, Int16, GasKiloOhm;
    RuleCounts(state, GasLowAlarm, Raises(GasLowAlarm, s, c, expected), Clears(GasLowAlarm, s, c, expected),
               WarningSeverity, GasKiloOhm(s));
    var s1 := Rule(state, GasLowAlarm, Raises(GasLowAlarm, s, c, expected), Clears(GasLowAlarm, s, c, expected),
                   WarningSeverity, GasKiloOhm(s));
    RuleCounts(s1, BatteryLowAlarm, Raises(BatteryLowAlarm, s, c, expected), Clears(BatteryLowAlarm, s, c, expected),
               WarningSeverity, Int16(s.batteryMv));
    Others(state.0, s1.0, GasLowAlarm);
    Others(s1.0, GasAndBattery(state, s, c, expected).0, BatteryLowAlarm);
  }

  /** An evaluation reports as many events as there are newly raised alarms. */
  lemma EvaluateCounts(flags: set<Alarm>, s: Sample, c: Config, expected: set<Sensor>)
    ensures |Evaluate(flags, s, c, expected).1|
         == One(NewlyRaised(TempHighAlarm, flags, s, c, expected) || NewlyRaised(TempLowAlarm, flags, s, c, expected))
          + One(NewlyRaised(HumidityHighAlarm, flags, s, c, expected))
              + One(NewlyRaised(GasLowAlarm, flags, s, c, expected))
          + One(NewlyRaised(BatteryLowAlarm, flags, s, c, expected))
              + One(NewlyRaised(SensorFaultAlarm, flags, s, c, expected))
  {
    hide Rule, MaskValue, Climate, GasAndBattery, Raises, Clears;
    var climate := Climate((flags, []), s, c, expected);
    var readings := GasAndBattery(climate, s, c, expected);
    ClimateCounts((flags, []), s, c, expected);
    GasAndBatteryCounts(climate, s, c, expected);
    RuleCounts(readings, SensorFaultAlarm, Raises(SensorFaultAlarm, s, c, expected),
               Clears(SensorFaultAlarm, s, c, expected), WarningSeverity, MaskValue(s.valid));
  }

  /** An event of a sample is dropped if and only if the sample starts a movement
      that is tampering, and a temperature alarm and the humidity, gas, battery and
      sensor-fault alarms are all newly raised. */
  lemma DroppedIffAllFire(m: Motion, mc: Config, st: Status, c: Config, expected: set<Sensor>, s: Sample)
    requires m.Fits() && s.timestamp < UINT32_LIMIT && Validated(mc)
    requires Accel in s.valid ==> SensorMath.HasMagnitude(s)
    ensures var r := Process(m, mc, s).1;
      var all := AllEvents(m, mc, st, c, expected, s);
      Enqueue([], all) != all <==>
        && r.start && r.tamper
        && (NewlyRaised(TempHighAlarm, st.flags, s, c, expected) || NewlyRaised(TempLowAlarm, st.flags, s, c, expected))
        && NewlyRaised(HumidityHighAlarm, st.flags, s, c, expected)
            && NewlyRaised(GasLowAlarm, st.flags, s, c, expected)
        && NewlyRaised(BatteryLowAlarm, st.flags, s, c, expected)
            && NewlyRaised(SensorFaultAlarm, st.flags, s, c, expected)
  {
    var r := Process(m, mc, s).1;
    AtMostFourMotionEvents(m, mc, s);
    hide Process, Evaluate, MotionEvents, Raises;
    EvaluateCounts(st.flags + MotionFlags(r), s, c, expected);
  }

  lemma DropsLast(first: seq<Event>, last: seq<Event>)
    requires |first| <= MAX_PENDING && |last| <= 1
    ensures var raised := Enqueue([], first + last);
      if |first + last| <= MAX_PENDING then raised == first + last else raised == first
  {
  }

  /** It does happen: a tag at rest for five minutes that is struck, turned, hot,
      damp, in bad air, low on battery and without its pressure sensor. */
  lemma FaultWarningIsLostWhenAllFire(m: Motion, mc: Config, st: Status, c: Config, s: Sample)
    requires m == INITIAL.(orientation := ZUp) && s.timestamp == TAMPER_SETTLED_S && Validated(mc)
    requires mc.shockThreshold == 500 && mc.motionThreshold == 150 && mc.freeFallThreshold == 300
    requires s.accelX == 2000 && s.accelY == 0 && s.accelZ == 0 && s.magnitude == 2000
    requires s.valid == {TempRh, Accel, Battery, Gas} && st.flags == {}
    requires s.temperature > c.tempHigh && s.humidity > c.humidityHigh && s.gasOhm < c.gasLow
        && s.batteryMv < c.batteryLow
    ensures SensorMath.HasMagnitude(s)
    ensures |AllEvents(m, mc, st, c, {TempRh, Pressure, Accel, Battery, Gas}, s)| == MAX_PENDING + 1
  {
    hide Process, Evaluate, MotionEvents, SensorMath.HasMagnitude, Raises;
    SensorMath.MagnitudeOfOneAxis(s);
    TamperedOnTheSpot(m, mc, s);
    var r, expected := Process(m, mc, s).1, {TempRh, Pressure, Accel, Battery, Gas};
    MotionEventsCount(r);
    EvaluateCounts(st.flags + MotionFlags(r), s, c, expected);
    EverythingWrong(st.flags + MotionFlags(r), s, c, expected);
  }

  /** A sample that is hot, damp, in bad air and low on battery, without a pressure. */
  lemma EverythingWrong(flags: set<Alarm>, s: Sample, c: Config, expected: set<Sensor>)
    requires flags !! EVALUATED && s.valid == {TempRh, Accel, Battery, Gas} && Pressure in expected
    requires s.temperature > c.tempHigh && s.humidity > c.humidityHigh && s.gasOhm < c.gasLow
        && s.batteryMv < c.batteryLow
    ensures NewlyRaised(TempHighAlarm, flags, s, c, expected) && NewlyRaised(HumidityHighAlarm, flags, s, c, expected)
    ensures NewlyRaised(GasLowAlarm, flags, s, c, expected) && NewlyRaised(BatteryLowAlarm, flags, s, c, expected)
    ensures NewlyRaised(SensorFaultAlarm, flags, s, c, expected)
  {
    assert Pressure !in s.valid;
    assert forall a :: a in EVALUATED ==> a !in flags;
  }

  /** A tag at rest for five minutes, struck and turned. */
  lemma TamperedOnTheSpot(m: Motion, mc: Config, s: Sample)
    requires m == INITIAL.(orientation := ZUp) && s.timestamp == TAMPER_SETTLED_S
    requires mc.shockThreshold == 500 && mc.motionThreshold == 150 && mc.freeFallThreshold == 300
    requires s.accelX == 2000 && s.accelY == 0 && s.accelZ == 0 && s.magnitude == 2000 && Accel in s.valid
    ensures var r := Process(m, mc, s).1;
      r.start && r.shock && r.turned && r.tamper && !r.stop && !r.freeFall
  {
  }
}
