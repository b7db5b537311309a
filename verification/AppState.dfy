/** The application state: what one sample does to the status and to the lifetime
    statistics, and the bounded queue through which its events are raised. */
module AppState {
  import opened SmartTag
  import opened MotionManager
  import opened Alarms

  const MAX_PENDING: nat := 8

  datatype Status = Status(
    moving: bool, orientation: Orientation, tamper: bool, flags: set<Alarm>,
    maxShock: nat, shockCount: nat, freeFallCount: nat, eventCount: nat, movementDuration: nat, lastMovement: nat)

  /** tag_statistics_t, as far as this module updates it; it is what a flush stores. */
  datatype Statistics = Statistics(
    bootCount: nat, totalUptime: nat, motionCount: nat, shockCount: nat, freeFallCount: nat, eventCount: nat,
    movementDuration: nat, maxShock: nat, minBattery: nat, sensorFaults: nat)

  datatype Books = Books(status: Status, statistics: Statistics)

  /** Boot: the counters go on from what is stored, the alarms start cleared. */
  function Booted(stored: Statistics): Books {
    Books(Status(false, Unknown, false, {}, stored.maxShock, stored.shockCount, stored.freeFallCount, stored.eventCount,
                 stored.movementDuration, 0),
          stored.(bootCount := Add32(stored.bootCount, 1)))
  }

  function OrientationValue(o: Orientation): int {
    match o
    case Unknown => 0
    case XUp => 1
    case XDown => 2
    case YUp => 3
    case YDown => 4
    case ZUp => 5
    case ZDown => 6
  }

  function Maybe(occurred: bool, kind: EventType, severity: Severity, value: int): (events: seq<Event>)
    ensures |events| == if occurred then 1 else 0
  {
    if occurred then [Event(kind, severity, value)] else []
  }

  /** The events of a motion result, in the order in which they are queued. */
  function MotionEvents(r: MotionResult): seq<Event> {
    Maybe(r.start, MotionStart, InfoSeverity, 0)
    + Maybe(r.stop, MotionStop, InfoSeverity, if r.duration < INT16_MAX then r.duration else INT16_MAX)
    + Maybe(r.shock, Shock, AlarmSeverity, Int16(r.shockMg))
    + Maybe(r.freeFall, FreeFall, AlarmSeverity, 0)
    + Maybe(r.turned, OrientationChange, InfoSeverity, OrientationValue(r.orientation))
    + Maybe(r.tamper, Tamper, AlarmSeverity, 0)
  }

  function MotionFlags(r: MotionResult): set<Alarm> {
    (if r.shock then {ShockAlarm} else {}) + (if r.freeFall then {FreeFallAlarm} else {})
        + (if r.tamper then {TamperAlarm} else {})
  }

  function ApplyMotion(b: Books, r: MotionResult, timestamp: nat): Books {
    var st, lifetime := b.status, b.statistics;
    var harder := r.shock && r.shockMg > st.maxShock;
    var shocks, falls := Add32(st.shockCount, 1), Add32(st.freeFallCount, 1);
    var duration := Add32(st.movementDuration, r.duration);
    Books(Status(r.moving, r.orientation, st.tamper || r.tamper, st.flags + MotionFlags(r),
                 if harder then r.shockMg else st.maxShock,
                 if r.shock then shocks else st.shockCount,
                 if r.freeFall then falls else st.freeFallCount,
                 st.eventCount,
                 if r.stop then duration else st.movementDuration,
                 if r.start then timestamp else st.lastMovement),
          lifetime.(motionCount := if r.start then Add32(lifetime.motionCount, 1) else lifetime.motionCount,
                    shockCount := if r.shock then shocks else lifetime.shockCount,
                    freeFallCount := if r.freeFall then falls else lifetime.freeFallCount,
                    movementDuration := if r.stop then duration else lifetime.movementDuration,
                    maxShock := if harder then r.shockMg else lifetime.maxShock))
  }

  /** What the thresholds do: the alarm flags, the faults and the lowest battery. */
  function ApplyThresholds(b: Books, s: Sample, c: Config, expected: set<Sensor>): Books {
    var flags := Evaluate(b.status.flags, s, c, expected).0;
    Books(b.status.(flags := flags),
          b.statistics.(sensorFaults := if SensorFaultAlarm in flags && SensorFaultAlarm !in b.status.flags
                                        then Add16(b.statistics.sensorFaults, 1) else b.statistics.sensorFaults,
                        minBattery := if Battery in s.valid
                            && (b.statistics.minBattery == 0 || s.batteryMv < b.statistics.minBattery)
                                      then s.batteryMv else b.statistics.minBattery))
  }

  /** n events have been raised. */
  function ApplyRaised(b: Books, n: nat): Books {
    if n == 0 then b
    else
      var count := Add32(b.status.eventCount, n);
      Books(b.status.(eventCount := count), b.statistics.(eventCount := count))
  }

  /** A queue with a limit: what does not fit is dropped. */
  function Enqueue(queue: seq<Event>, events: seq<Event>): (queue': seq<Event>)
    requires |queue| <= MAX_PENDING
    ensures |queue'| <= MAX_PENDING
  {
    if |queue| + |events| <= MAX_PENDING then queue + events else queue + events[..MAX_PENDING - |queue|]
  }

  /** All the events that one sample gives rise to, in order. */
  function AllEvents(m: Motion, mc: Config, st: Status, c: Config, expected: set<Sensor>, s: Sample): seq<Event>
    requires m.Fits() && s.timestamp < UINT32_LIMIT
  {
    var r := Process(m, mc, s).1;
    MotionEvents(r) + Evaluate(st.flags + MotionFlags(r), s, c, expected).1
  }

  /** Everything one sample does to the books, given its motion result. */
  function ApplySample(b: Books, r: MotionResult, s: Sample, c: Config, expected: set<Sensor>): Books {
    var checked := ApplyThresholds(ApplyMotion(b, r, s.timestamp), s, c, expected);
    var events := MotionEvents(r) + Evaluate(b.status.flags + MotionFlags(r), s, c, expected).1;
    ApplyRaised(checked.(statistics := checked.statistics.(totalUptime := s.timestamp)), |Enqueue([], events)|)
  }

  function ApplyReset(b: Books): Books {
    Books(b.status.(shockCount := 0, freeFallCount := 0, eventCount := 0, maxShock := 0, movementDuration := 0,
                    tamper := false, flags := b.status.flags - {ShockAlarm, FreeFallAlarm, TamperAlarm}),
          b.statistics.(shockCount := 0, freeFallCount := 0, eventCount := 0, maxShock := 0, movementDuration := 0))
  }

  class AppState {
    const motion: MotionManager
    const buffer: EventBuffer
    const pending: array<Event>
    var pendingCount: nat
    var moving: bool
    var orientation: Orientation
    var tamper: bool
    var alarmFlags: set<Alarm>
    var maxShock: nat
    var shockCount: nat
    var freeFallCount: nat
    var eventCount: nat
    var movementDuration: nat
    var lastMovement: nat
    var statistics: Statistics

    ghost predicate Valid()
      reads this, motion, motion.detector, buffer
    {
      && buffer.Valid() && motion.State().Fits()
      && pending.Length == MAX_PENDING && pending != buffer.events && pendingCount <= MAX_PENDING
    }

    ghost function State(): Books
      reads this
    {
      Books(Status(moving, orientation, tamper, alarmFlags, maxShock, shockCount, freeFallCount, eventCount,
                   movementDuration, lastMovement),
            statistics)
    }

    ghost function Queue(): (queue: seq<Event>)
      requires pendingCount <= pending.Length
      reads this, pending
    {
      pending[..pendingCount]
    }

    /** app_state_init() and motion_manager_init(), with the statistics as stored. */
    constructor (config: Config, stored: Statistics)
      ensures Valid() && Queue() == [] && motion.State() == INITIAL && motion.config == config
      ensures State() == Booted(stored)
    {
      motion := new MotionManager(config);
      buffer := new EventBuffer();
      pending := new Event[MAX_PENDING](_ => Event(Shock, InfoSeverity, 0));
      pendingCount := 0;
      moving, orientation, tamper, alarmFlags, lastMovement := false, Unknown, false, {}, 0;
      shockCount, freeFallCount, eventCount := stored.shockCount, stored.freeFallCount, stored.eventCount;
      maxShock, movementDuration := stored.maxShock, stored.movementDuration;
      statistics := stored.(bootCount := Add32(stored.bootCount, 1));
    }

    /** Queues one event, unless the queue is full. */
    method QueueEvent(kind: EventType, severity: Severity, value: int)
      requires pendingCount <= MAX_PENDING == pending.Length
      modifies this`pendingCount, pending
      ensures pendingCount <= MAX_PENDING
      ensures Queue() == Enqueue(old(Queue()), [Event(kind, severity, value)])
    {
      if pendingCount >= MAX_PENDING {
        return;
      }
      pending[pendingCount] := Event(kind, severity, value);
      pendingCount := pendingCount + 1;
    }

    /** The START and STOP events of a motion result. */
    method NoteMovement(r: MotionResult, timestamp: nat)
      requires pendingCount <= MAX_PENDING == pending.Length
      modifies this`lastMovement, this`movementDuration, this`statistics, this`pendingCount, pending
      ensures pendingCount <= MAX_PENDING
      ensures State() == ApplyMovement(old(State()), r, timestamp)
      ensures Queue() == EnqueueMovement(old(Queue()), r)
    {
      hide Enqueue, Add32;
      if r.start {
        statistics := statistics.(motionCount := Add32(statistics.motionCount, 1));
        lastMovement := timestamp;
        QueueEvent(MotionStart, InfoSeverity, 0);
      }
      if r.stop {
        movementDuration := Add32(movementDuration, r.duration);
        statistics := statistics.(movementDuration := movementDuration);
        QueueEvent(MotionStop, InfoSeverity, if r.duration < INT16_MAX then r.duration else INT16_MAX);
      }
    }

    /** The shock event of a motion result. */
    method NoteShock(r: MotionResult)
      requires pendingCount <= MAX_PENDING == pending.Length
      modifies this`alarmFlags, this`maxShock, this`shockCount, this`statistics, this`pendingCount, pending
      ensures pendingCount <= MAX_PENDING
      ensures State() == ApplyShock(old(State()), r)
      ensures Queue() == EnqueueIf(old(Queue()), r.shock, Shock, AlarmSeverity, Int16(r.shockMg))
    {
      hide Enqueue, Add32, Int16;
      if r.shock {
        shockCount := Add32(shockCount, 1);
        statistics := statistics.(shockCount := shockCount);
        alarmFlags := alarmFlags + {ShockAlarm};
        if r.shockMg > maxShock {
          maxShock := r.shockMg;
          statistics := statistics.(maxShock := r.shockMg);
        }
        QueueEvent(Shock, AlarmSeverity, Int16(r.shockMg));
      }
    }

    /** The free-fall event of a motion result. */
    method NoteFreeFall(r: MotionResult)
      requires pendingCount <= MAX_PENDING == pending.Length
      modifies this`alarmFlags, this`freeFallCount, this`statistics, this`pendingCount, pending
      ensures pendingCount <= MAX_PENDING
      ensures State() == ApplyFreeFall(old(State()), r)
      ensures Queue() == EnqueueIf(old(Queue()), r.freeFall, FreeFall, AlarmSeverity, 0)
    {
      hide Enqueue, Add32;
      if r.freeFall {
        freeFallCount := Add32(freeFallCount, 1);
        statistics := statistics.(freeFallCount := freeFallCount);
        alarmFlags := alarmFlags + {FreeFallAlarm};
        QueueEvent(FreeFall, AlarmSeverity, 0);
      }
    }

    /** Turns a motion result into status changes and queued events. */
    method ApplyMotionResult(r: MotionResult, timestamp: nat)
      requires pendingCount <= MAX_PENDING == pending.Length
      modifies this, pending
      ensures pendingCount <= MAX_PENDING
      ensures State() == ApplyMotion(old(State()), r, timestamp)
      ensures Queue() == Enqueue(old(Queue()), MotionEvents(r))
    {
      hide Enqueue, EnqueueMovement, OrientationValue, MotionEvents, ApplyMotion, ApplyMovement, ApplyShock,
          ApplyFreeFall;
      EnqueueMotion(Queue(), r);
      MotionParts(State(), r, timestamp);
      NoteMovement(r, timestamp);
      NoteShock(r);
      NoteFreeFall(r);
      if r.turned {
        QueueEvent(OrientationChange, InfoSeverity, OrientationValue(r.orientation));
      }
      if r.tamper {
        tamper := true;
        alarmFlags := alarmFlags + {TamperAlarm};
        QueueEvent(Tamper, AlarmSeverity, 0);
      }
      moving, orientation := r.moving, r.orientation;
    }

    /** Queues the alarms that the evaluator has left in the buffer. */
    method QueueAlarms()
      requires Valid()
      modifies this`pendingCount, pending
      ensures Valid() && Queue() == Enqueue(old(Queue()), buffer.Contents())
    {
      hide Enqueue;
      ghost var start, events := Queue(), buffer.Contents();
      EnqueueNothing(start);
      for i := 0 to buffer.count
        invariant Valid() && buffer.Contents() == events
        invariant Queue() == Enqueue(start, events[..i])
      {
        var event := buffer.events[i];
        EnqueueJoin(start, events[..i], [event]);
        assert events[..i + 1] == events[..i] + [event];
        QueueEvent(event.kind, event.severity, event.value);
      }
      assert events[..buffer.count] == events;
    }

    /** Evaluates the thresholds and queues the alarms that are new. */
    method CheckThresholds(s: Sample, c: Config, expected: set<Sensor>)
      requires Valid()
      modifies this`alarmFlags, this`statistics, this`pendingCount, pending, buffer, buffer.events
      ensures Valid()
      ensures State() == ApplyThresholds(old(State()), s, c, expected)
      ensures Queue() == Enqueue(old(Queue()), Evaluate(old(alarmFlags), s, c, expected).1)
    {
      hide Enqueue, Evaluate;
      var before := alarmFlags;
      alarmFlags := EvalAlarms(s, c, expected, alarmFlags, buffer);
      if SensorFaultAlarm in alarmFlags && SensorFaultAlarm !in before {
        statistics := statistics.(sensorFaults := Add16(statistics.sensorFaults, 1));
      }
      if Battery in s.valid {
        if statistics.minBattery == 0 || s.batteryMv < statistics.minBattery {
          statistics := statistics.(minBattery := s.batteryMv);
        }
      }
      QueueAlarms();
    }

    /** app_raise_event(), as far as it counts. */
    method RaiseEvent()
      modifies this`eventCount, this`statistics
      ensures State() == ApplyRaised(old(State()), 1)
    {
      eventCount := Add32(eventCount, 1);
      statistics := statistics.(eventCount := eventCount);
    }

    /** Empties the queue and raises what was in it, in order. */
    method DrainPending() returns (batch: seq<Event>)
      requires pendingCount <= pending.Length
      modifies this`pendingCount, this`eventCount, this`statistics
      ensures pendingCount == 0 && batch == old(Queue())
      ensures State() == ApplyRaised(old(State()), |batch|)
    {
      batch := pending[..pendingCount];
      pendingCount := 0;
      for i := 0 to |batch|
        invariant pendingCount == 0 && State() == ApplyRaised(old(State()), i)
      {
        RaiseEvent();
      }
    }

    /** One sample: motion first, then the thresholds; returns the events raised
        and the sample's marks, whose orientation is the status's in any case. */
    method ProcessSensorData(s: Sample, before: Marks, c: Config, expected: set<Sensor>)
        returns (raised: seq<Event>, marks: Marks)
      requires Valid() && Queue() == [] && s.timestamp < UINT32_LIMIT
      modifies this, pending, buffer, buffer.events, motion, motion.detector
      ensures Valid() && Queue() == [] && motion.config == old(motion.config)
      ensures motion.State() == Process(old(motion.State()), motion.config, s).0
      ensures raised == Enqueue([], AllEvents(old(motion.State()), motion.config, old(State().status), c, expected, s))
      ensures State() == ApplySample(old(State()), Process(old(motion.State()), motion.config, s).1, s, c, expected)
      ensures marks == Mark(before, s, Process(old(motion.State()), motion.config, s).1).(orientation := orientation)
    {
      hide Enqueue, Evaluate, Process, MotionEvents, MotionFlags, Add32, Add16;
      var r;
      r, marks := motion.ProcessSample(s, before);
      ApplyMotionResult(r, s.timestamp);
      ghost var events := Evaluate(alarmFlags, s, c, expected).1;
      EnqueueJoin([], MotionEvents(r), events);
      CheckThresholds(s, c, expected);
      marks := marks.(orientation := orientation);
      statistics := statistics.(totalUptime := s.timestamp);
      raised := DrainPending();
    }

    /** The part of a counter reset that runs under the lock. */
    method ClearCounters()
      modifies this`shockCount, this`freeFallCount, this`eventCount, this`maxShock, this`movementDuration, this`tamper,
               this`alarmFlags, this`statistics
      ensures State() == ApplyReset(old(State()))
    {
      shockCount, freeFallCount, eventCount, maxShock, movementDuration, tamper := 0, 0, 0, 0, 0, false;
      alarmFlags := alarmFlags - {ShockAlarm, FreeFallAlarm, TamperAlarm};
      statistics := statistics.(shockCount := 0, freeFallCount := 0, eventCount := 0, maxShock := 0,
                                movementDuration := 0);
    }

    /** Clears the counters, the tamper state and the motion alarms. */
    method ResetCounters()
      requires Valid()
      modifies this, motion`tamper
      ensures Valid() && Queue() == old(Queue())
      ensures State() == ApplyReset(old(State()))
      ensures motion.State() == old(motion.State()).(tamper := false)
    {
      ClearCounters();
      motion.ClearTamper();
    }
  }

  /** The parts of ApplyMotion, in the order in which the source takes them. */
  function ApplyMovement(b: Books, r: MotionResult, timestamp: nat): Books {
    var still := r.(shock := false, freeFall := false, tamper := false, moving := b.status.moving,
                    orientation := b.status.orientation);
    ApplyMotion(b, still, timestamp)
  }

  function ApplyShock(b: Books, r: MotionResult): Books {
    var st, count := b.status, Add32(b.status.shockCount, 1);
    if !r.shock then b
    else
      var max := if r.shockMg > st.maxShock then r.shockMg else st.maxShock;
      Books(st.(shockCount := count, flags := st.flags + {ShockAlarm}, maxShock := max),
            b.statistics.(shockCount := count, maxShock := if r.shockMg > st.maxShock then max
                          else b.statistics.maxShock))
  }

  function ApplyFreeFall(b: Books, r: MotionResult): Books {
    var st, count := b.status, Add32(b.status.freeFallCount, 1);
    if !r.freeFall then b
    else Books(st.(freeFallCount := count, flags := st.flags + {FreeFallAlarm}), b.statistics.(freeFallCount := count))
  }

  function ApplyTurn(b: Books, r: MotionResult): Books {
    b.(status := b.status.(moving := r.moving, orientation := r.orientation, tamper := b.status.tamper || r.tamper,
                           flags := if r.tamper then b.status.flags + {TamperAlarm} else b.status.flags))
  }

  lemma MotionParts(b: Books, r: MotionResult, timestamp: nat)
    ensures ApplyTurn(ApplyFreeFall(ApplyShock(ApplyMovement(b, r, timestamp), r), r), r)
        == ApplyMotion(b, r, timestamp)
  {
    hide Add32;
    var flags := b.status.flags;
    assert flags + MotionFlags(r.(shock := false, freeFall := false, tamper := false)) == flags;
    assert flags + (if r.shock then {ShockAlarm} else {}) + (if r.freeFall then {FreeFallAlarm} else {})
        + (if r.tamper then {TamperAlarm} else {}) == flags + MotionFlags(r);
  }

  /** Queueing one event if it has occurred. */
  function EnqueueIf(queue: seq<Event>, occurred: bool, kind: EventType, severity: Severity,
                     value: int): (queue': seq<Event>)
    requires |queue| <= MAX_PENDING
    ensures |queue'| <= MAX_PENDING
  {
    if occurred then Enqueue(queue, [Event(kind, severity, value)]) else queue
  }

  function EnqueueMovement(queue: seq<Event>, r: MotionResult): (queue': seq<Event>)
    requires |queue| <= MAX_PENDING
    ensures |queue'| <= MAX_PENDING
  {
    EnqueueIf(EnqueueIf(queue, r.start, MotionStart, InfoSeverity, 0),
              r.stop, MotionStop, InfoSeverity, if r.duration < INT16_MAX then r.duration else INT16_MAX)
  }

  /** Queueing the events of a motion result one by one. */
  lemma EnqueueMotion(queue: seq<Event>, r: MotionResult)
    requires |queue| <= MAX_PENDING
    ensures var struck := EnqueueIf(EnqueueMovement(queue, r), r.shock, Shock, AlarmSeverity, Int16(r.shockMg));
      var impacts := EnqueueIf(struck, r.freeFall, FreeFall, AlarmSeverity, 0);
      var turned := EnqueueIf(impacts, r.turned, OrientationChange, InfoSeverity, OrientationValue(r.orientation));
      EnqueueIf(turned, r.tamper, Tamper, AlarmSeverity, 0) == Enqueue(queue, MotionEvents(r))
  {
    var e1 := Maybe(r.start, MotionStart, InfoSeverity, 0);
    var e2 := e1 + Maybe(r.stop, MotionStop, InfoSeverity, if r.duration < INT16_MAX then r.duration else INT16_MAX);
    var e3 := e2 + Maybe(r.shock, Shock, AlarmSeverity, Int16(r.shockMg));
    var e4 := e3 + Maybe(r.freeFall, FreeFall, AlarmSeverity, 0);
    var e5 := e4 + Maybe(r.turned, OrientationChange, InfoSeverity, OrientationValue(r.orientation));
    assert MotionEvents(r) == e5 + Maybe(r.tamper, Tamper, AlarmSeverity, 0);
    hide Enqueue, EnqueueIf, Maybe, Int16, OrientationValue, MotionEvents;
    EnqueueMaybe(queue, [], r.start, MotionStart, InfoSeverity, 0);
    EnqueueNothing(queue);
    assert [] + e1 == e1;
    EnqueueMaybe(queue, e1, r.stop, MotionStop, InfoSeverity, if r.duration < INT16_MAX then r.duration else INT16_MAX);
    EnqueueMaybe(queue, e2, r.shock, Shock, AlarmSeverity, Int16(r.shockMg));
    EnqueueMaybe(queue, e3, r.freeFall, FreeFall, AlarmSeverity, 0);
    EnqueueMaybe(queue, e4, r.turned, OrientationChange, InfoSeverity, OrientationValue(r.orientation));
    EnqueueMaybe(queue, e5, r.tamper, Tamper, AlarmSeverity, 0);
  }

  lemma EnqueueMaybe(queue: seq<Event>, queued: seq<Event>, occurred: bool, kind: EventType, severity: Severity,
                     value: int)
    requires |queue| <= MAX_PENDING
    ensures EnqueueIf(Enqueue(queue, queued), occurred, kind, severity, value)
        == Enqueue(queue, queued + Maybe(occurred, kind, severity, value))
  {
    EnqueueJoin(queue, queued, Maybe(occurred, kind, severity, value));
    EnqueueNothing(Enqueue(queue, queued));
  }

  lemma EnqueueJoin(queue: seq<Event>, a: seq<Event>, b: seq<Event>)
    requires |queue| <= MAX_PENDING
    ensures Enqueue(Enqueue(queue, a), b) == Enqueue(queue, a + b)
  {
  }

  lemma EnqueueNothing(queue: seq<Event>)
    requires |queue| <= MAX_PENDING
    ensures Enqueue(queue, []) == queue
  {
  }
}
