/** What the published status says about the detectors, and what the statistics keep
    of it, over whole runs of samples and counter resets from any boot. */
module StatusTraces {
  import opened SmartTag
  import opened MotionManager
  import opened Alarms
  import opened AppState

  datatype Input = Sampled(sample: Sample, config: Config, expected: set<Sensor>) | CountersReset

  datatype Tag = Tag(motion: Motion, books: Books)

  function Next(tag: Tag, mc: Config, input: Input): (tag': Tag)
    requires tag.motion.Fits() && (input.Sampled? ==> input.sample.timestamp < UINT32_LIMIT)
    ensures tag'.motion.Fits()
  {
    match input
    case Sampled(s, c, expected) =>
      var (m, r) := Process(tag.motion, mc, s);
      Tag(m, ApplySample(tag.books, r, s, c, expected))
    case CountersReset => Tag(tag.motion.(tamper := false), ApplyReset(tag.books))
  }

  ghost predicate Stamped(inputs: seq<Input>) {
    forall k :: 0 <= k < |inputs| && inputs[k].Sampled? ==> inputs[k].sample.timestamp < UINT32_LIMIT
  }

  /** A run from a boot with these statistics in storage. */
  function After(stored: Statistics, mc: Config, inputs: seq<Input>): (tag: Tag)
    requires Stamped(inputs)
    ensures tag.motion.Fits()
  {
    if inputs == [] then Tag(INITIAL, Booted(stored))
    else Next(After(stored, mc, inputs[..|inputs| - 1]), mc, inputs[|inputs| - 1])
  }

  /** What is left of a stored counter: all of it until the first reset. */
  function Carried(counter: nat, inputs: seq<Input>): nat {
    if CountersReset in inputs then 0 else counter
  }

  // ---- Status and detectors ----

  /** The status repeats the machine's state. */
  ghost predicate Repeats(tag: Tag) {
    var m, st := tag.motion, tag.books.status;
    && st.moving == m.moving && st.orientation == m.orientation
    && st.tamper == m.tamper && (TamperAlarm in st.flags <==> m.tamper)
  }

  /** A motion alarm is lit exactly while its counter is above what was carried
      over, and only then is the hardest shock a new one, if at all. */
  ghost predicate Lit(st: Status, shocks: nat, falls: nat, hardest: nat) {
    && (ShockAlarm in st.flags <==> st.shockCount > shocks) && st.shockCount >= shocks
    && (FreeFallAlarm in st.flags <==> st.freeFallCount > falls) && st.freeFallCount >= falls
    && st.maxShock >= hardest
    && if ShockAlarm in st.flags then st.maxShock > 0 else st.maxShock == hardest
  }

  lemma SampleRepeats(tag: Tag, mc: Config, s: Sample, c: Config, expected: set<Sensor>)
    requires Repeats(tag) && tag.motion.Fits() && s.timestamp < UINT32_LIMIT
    ensures Repeats(Next(tag, mc, Sampled(s, c, expected)))
  {
    SampledFlags(tag.books, Process(tag.motion, mc, s).1, s, c, expected);
    hide Evaluate, MotionEvents, Enqueue;
  }

  /** What a sample does to the motion alarms: the thresholds leave them alone. */
  lemma SampledFlags(b: Books, r: MotionResult, s: Sample, c: Config, expected: set<Sensor>)
    ensures var flags := ApplySample(b, r, s, c, expected).status.flags;
      && (TamperAlarm in flags <==> TamperAlarm in b.status.flags || r.tamper)
      && (ShockAlarm in flags <==> ShockAlarm in b.status.flags || r.shock)
      && (FreeFallAlarm in flags <==> FreeFallAlarm in b.status.flags || r.freeFall)
  {
    hide Evaluate, MotionEvents, Enqueue;
    var flags := b.status.flags + MotionFlags(r);
    EvaluateMeans(flags, s, c, expected, TamperAlarm);
    EvaluateMeans(flags, s, c, expected, ShockAlarm);
    EvaluateMeans(flags, s, c, expected, FreeFallAlarm);
  }

  lemma SampleLights(b: Books, r: MotionResult, s: Sample, c: Config, expected: set<Sensor>, shocks: nat, falls: nat,
                     hardest: nat)
    requires Lit(b.status, shocks, falls, hardest) && (r.shock ==> r.shockMg > 0)
    requires b.status.shockCount + 1 < UINT32_LIMIT && b.status.freeFallCount + 1 < UINT32_LIMIT
    ensures var st := ApplySample(b, r, s, c, expected).status;
      && Lit(st, shocks, falls, hardest)
      && st.shockCount <= b.status.shockCount + 1 && st.freeFallCount <= b.status.freeFallCount + 1
  {
    SampledFlags(b, r, s, c, expected);
    hide Evaluate, MotionEvents, Enqueue;
  }

  lemma ShockHasPeak(m: Motion, mc: Config, s: Sample)
    requires m.Fits() && s.timestamp < UINT32_LIMIT
    ensures Process(m, mc, s).1.shock ==> Process(m, mc, s).1.shockMg > 0
  {
  }

  lemma InputKeeps(tag: Tag, mc: Config, input: Input, shocks: nat, falls: nat, hardest: nat)
    requires Repeats(tag) && Lit(tag.books.status, shocks, falls, hardest) && tag.motion.Fits()
    requires input.Sampled? ==> input.sample.timestamp < UINT32_LIMIT
    requires tag.books.status.shockCount + 1 < UINT32_LIMIT && tag.books.status.freeFallCount + 1 < UINT32_LIMIT
    ensures var tag' := Next(tag, mc, input);
      && Repeats(tag')
      && (if input.Sampled? then Lit(tag'.books.status, shocks, falls, hardest) else Lit(tag'.books.status, 0, 0, 0))
      && tag'.books.status.shockCount <= tag.books.status.shockCount + 1
      && tag'.books.status.freeFallCount <= tag.books.status.freeFallCount + 1
  {
    match input
    case Sampled(s, c, expected) =>
      hide Lit, Repeats, Process, ApplySample;
      SampleRepeats(tag, mc, s, c, expected);
      ShockHasPeak(tag.motion, mc, s);
      SampleLights(tag.books, Process(tag.motion, mc, s).1, s, c, expected, shocks, falls, hardest);
    case CountersReset =>
  }

  lemma CarriedStep(counter: nat, inputs: seq<Input>)
    requires inputs != []
    ensures var n := |inputs| - 1;
      Carried(counter, inputs) == if inputs[n].CountersReset? then 0 else Carried(counter, inputs[..n])
  {
    assert inputs == inputs[..|inputs| - 1] + [inputs[|inputs| - 1]];
  }

  /** Over any run from any boot that does not exhaust the 32-bit counters, the
      status repeats the machine's state, and the shock and free-fall alarms are
      lit exactly while their counters exceed what was stored at boot, or 0 after a
      reset. */
  lemma {:induction false} StatusMirrorsDetectors(stored: Statistics, mc: Config, inputs: seq<Input>)
    requires Stamped(inputs) && stored.shockCount + |inputs| < UINT32_LIMIT
        && stored.freeFallCount + |inputs| < UINT32_LIMIT
    ensures var tag := After(stored, mc, inputs);
      && Repeats(tag)
      && Lit(tag.books.status, Carried(stored.shockCount, inputs), Carried(stored.freeFallCount, inputs),
             Carried(stored.maxShock, inputs))
      && tag.books.status.shockCount <= stored.shockCount + |inputs|
      && tag.books.status.freeFallCount <= stored.freeFallCount + |inputs|
  {
    if inputs != [] {
      hide Lit, Repeats, Next, Carried;
      var before := inputs[..|inputs| - 1];
      StatusMirrorsDetectors(stored, mc, before);
      CarriedStep(stored.shockCount, inputs);
      CarriedStep(stored.freeFallCount, inputs);
      CarriedStep(stored.maxShock, inputs);
      InputKeeps(After(stored, mc, before), mc, inputs[|inputs| - 1],
                 Carried(stored.shockCount, before), Carried(stored.freeFallCount, before),
                     Carried(stored.maxShock, before));
    }
  }

  /** An alarm is lit exactly while there is something to show for it. */
  ghost predicate Mirrors(st: Status) {
    && (ShockAlarm in st.flags <==> st.shockCount > 0) && (ShockAlarm in st.flags <==> st.maxShock > 0)
    && (FreeFallAlarm in st.flags <==> st.freeFallCount > 0)
  }

  /** That fails after a boot with a history: it holds exactly if each alarm is lit
      by now or has nothing carried over from before the boot. */
  lemma MirrorsUnlessCarried(stored: Statistics, mc: Config, inputs: seq<Input>)
    requires Stamped(inputs) && stored.shockCount + |inputs| < UINT32_LIMIT
        && stored.freeFallCount + |inputs| < UINT32_LIMIT
    ensures var st := After(stored, mc, inputs).books.status;
      Mirrors(st) <==>
        && (ShockAlarm in st.flags || (Carried(stored.shockCount, inputs) == 0
                                       && Carried(stored.maxShock, inputs) == 0))
        && (FreeFallAlarm in st.flags || Carried(stored.freeFallCount, inputs) == 0)
  {
    StatusMirrorsDetectors(stored, mc, inputs);
  }

  /** So it holds over every run if and only if it holds at boot, which takes
      statistics without a shock or a free fall. */
  lemma MirrorsFromCleanBoot(stored: Statistics, mc: Config, inputs: seq<Input>)
    requires Stamped(inputs) && stored.shockCount + |inputs| < UINT32_LIMIT
        && stored.freeFallCount + |inputs| < UINT32_LIMIT
    ensures Mirrors(Booted(stored).status) <==>
      stored.shockCount == 0 && stored.maxShock == 0 && stored.freeFallCount == 0
    ensures Mirrors(Booted(stored).status) ==> Mirrors(After(stored, mc, inputs).books.status)
  {
    MirrorsUnlessCarried(stored, mc, inputs);
  }

  /** A tag that has stored one shock of 5 g boots with a shock and no alarm. */
  lemma BootHidesStoredShock(stored: Statistics)
    requires stored.shockCount == 1 && stored.maxShock == 5000
    ensures var st := Booted(stored).status; st.shockCount == 1 && st.maxShock == 5000 && ShockAlarm !in st.flags
  {
  }

  // ---- A reset while a sample is processed ----

  /** Both a sample and a counter reset touch the motion machine outside the lock:
      the sample before it takes the lock, the reset after it has released it. */
  datatype Half = MotionHalf | BooksHalf | CountersHalf | TamperHalf

  /** The tag, and the motion result of the sample that is being processed. */
  datatype Halfway = Halfway(tag: Tag, result: MotionResult)

  function TakeHalf(w: Halfway, half: Half, mc: Config, s: Sample, c: Config, expected: set<Sensor>): (w': Halfway)
    requires w.tag.motion.Fits() && s.timestamp < UINT32_LIMIT
    ensures w'.tag.motion.Fits()
  {
    match half
    case MotionHalf =>
      var (m, r) := Process(w.tag.motion, mc, s);
      Halfway(w.tag.(motion := m), r)
    case BooksHalf => w.(tag := w.tag.(books := ApplySample(w.tag.books, w.result, s, c, expected)))
    case CountersHalf => w.(tag := w.tag.(books := ApplyReset(w.tag.books)))
    case TamperHalf => w.(tag := w.tag.(motion := w.tag.motion.(tamper := false)))
  }

  function TakeHalves(w: Halfway, halves: seq<Half>, mc: Config, s: Sample, c: Config,
                      expected: set<Sensor>): (w': Halfway)
    requires w.tag.motion.Fits() && s.timestamp < UINT32_LIMIT
    ensures w'.tag.motion.Fits()
    decreases |halves|
  {
    if halves == [] then w
    else TakeHalves(TakeHalf(w, halves[0], mc, s, c, expected), halves[1..], mc, s, c, expected)
  }

  /** One after the other ... */
  const SAMPLE_FIRST: seq<Half> := [MotionHalf, BooksHalf, CountersHalf, TamperHalf]
  const RESET_FIRST: seq<Half> := [CountersHalf, TamperHalf, MotionHalf, BooksHalf]

  /** ... and interleaved. */
  const OVERLAPPING: set<seq<Half>> := {
    [MotionHalf, CountersHalf, BooksHalf, TamperHalf], [MotionHalf, CountersHalf, TamperHalf, BooksHalf],
    [CountersHalf, MotionHalf, BooksHalf, TamperHalf], [CountersHalf, MotionHalf, TamperHalf, BooksHalf]}

  /** What one half does to what Repeats speaks of. */
  ghost predicate HalfView(w: Halfway, w': Halfway, half: Half) {
    var (st, st', m, m') := (w.tag.books.status, w'.tag.books.status, w.tag.motion, w'.tag.motion);
    match half
    case MotionHalf =>
      && st' == st && w'.result.moving == m'.moving && w'.result.orientation == m'.orientation
      && m'.tamper == (m.tamper || w'.result.tamper)
    case BooksHalf =>
      && m' == m && w'.result == w.result
      && st'.moving == w.result.moving && st'.orientation == w.result.orientation
      && st'.tamper == (st.tamper || w.result.tamper)
      && (TamperAlarm in st'.flags <==> TamperAlarm in st.flags || w.result.tamper)
    case CountersHalf =>
      && m' == m && w'.result == w.result && st'.moving == st.moving && st'.orientation == st.orientation
      && !st'.tamper && TamperAlarm !in st'.flags
    case TamperHalf => st' == st && w'.result == w.result && m' == m.(tamper := false)
  }

  lemma HalfDoes(w: Halfway, half: Half, mc: Config, s: Sample, c: Config, expected: set<Sensor>)
    requires w.tag.motion.Fits() && s.timestamp < UINT32_LIMIT
    ensures HalfView(w, TakeHalf(w, half, mc, s, c, expected), half)
  {
    match half
    case MotionHalf =>
    case BooksHalf =>
      SampledFlags(w.tag.books, w.result, s, c, expected);
      hide Evaluate, MotionEvents, Enqueue;
    case CountersHalf =>
    case TamperHalf =>
  }

  lemma HalvesView(w0: Halfway, w1: Halfway, w2: Halfway, w3: Halfway, w4: Halfway, order: seq<Half>)
    requires Repeats(w0.tag) && (order == SAMPLE_FIRST || order == RESET_FIRST || order in OVERLAPPING)
    requires HalfView(w0, w1, order[0]) && HalfView(w1, w2, order[1]) && HalfView(w2, w3, order[2])
        && HalfView(w3, w4, order[3])
    ensures Repeats(w4.tag) <==> order == SAMPLE_FIRST || order == RESET_FIRST || !w4.result.tamper
  {
  }

  lemma TakeFour(w: Halfway, order: seq<Half>, mc: Config, s: Sample, c: Config, expected: set<Sensor>)
    requires w.tag.motion.Fits() && s.timestamp < UINT32_LIMIT && |order| == 4
    ensures var w1 := TakeHalf(w, order[0], mc, s, c, expected);
      var w2 := TakeHalf(w1, order[1], mc, s, c, expected);
      var w3 := TakeHalf(w2, order[2], mc, s, c, expected);
      TakeHalves(w, order, mc, s, c, expected) == TakeHalf(w3, order[3], mc, s, c, expected)
  {
    hide TakeHalf;
    var w1 := TakeHalf(w, order[0], mc, s, c, expected);
    var w2 := TakeHalf(w1, order[1], mc, s, c, expected);
    var w3 := TakeHalf(w2, order[2], mc, s, c, expected);
    var w4 := TakeHalf(w3, order[3], mc, s, c, expected);
    assert order[1..][1..] == order[2..] && order[2..][1..] == order[3..] && order[3..][1..] == [];
    assert TakeHalves(w4, [], mc, s, c, expected) == w4;
    assert TakeHalves(w3, order[3..], mc, s, c, expected) == w4;
    assert TakeHalves(w2, order[2..], mc, s, c, expected) == w4;
    assert TakeHalves(w1, order[1..], mc, s, c, expected) == w4;
  }

  /** However a counter reset and a sample overlap, status and machine agree
      afterwards if and only if one came wholly before the other or the sample was
      not tampering: otherwise the status keeps the tamper state and the machine
      has forgotten it. */
  lemma ResetAmidSample(tag: Tag, order: seq<Half>, none: MotionResult, mc: Config, s: Sample, c: Config,
                        expected: set<Sensor>)
    requires Repeats(tag) && tag.motion.Fits() && s.timestamp < UINT32_LIMIT
    requires order == SAMPLE_FIRST || order == RESET_FIRST || order in OVERLAPPING
    ensures var after := TakeHalves(Halfway(tag, none), order, mc, s, c, expected);
      Repeats(after.tag) <==> order == SAMPLE_FIRST || order == RESET_FIRST || !after.result.tamper
  {
    hide TakeHalf, TakeHalves, HalfView, Repeats;
    assert |order| == 4;
    var w0 := Halfway(tag, none);
    TakeFour(w0, order, mc, s, c, expected);
    var w1 := TakeHalf(w0, order[0], mc, s, c, expected);
    var w2 := TakeHalf(w1, order[1], mc, s, c, expected);
    var w3 := TakeHalf(w2, order[2], mc, s, c, expected);
    HalfDoes(w0, order[0], mc, s, c, expected);
    HalfDoes(w1, order[1], mc, s, c, expected);
    HalfDoes(w2, order[2], mc, s, c, expected);
    HalfDoes(w3, order[3], mc, s, c, expected);
    HalvesView(w0, w1, w2, w3, TakeHalf(w3, order[3], mc, s, c, expected), order);
  }

  // ---- Status and statistics ----

  /** The counters of the status are those of the statistics. */
  ghost predicate Balanced(b: Books) {
    && b.status.shockCount == b.statistics.shockCount && b.status.freeFallCount == b.statistics.freeFallCount
    && b.status.eventCount == b.statistics.eventCount && b.status.maxShock == b.statistics.maxShock
    && b.status.movementDuration == b.statistics.movementDuration
  }

  /** Over any run the two sets of counters agree, so that a boot from what a flush
      stores shows the same counters as before: they count on for ever, while every
      alarm and the tamper state start cleared. */
  lemma {:induction false} CountersSurviveRestart(stored: Statistics, mc: Config, inputs: seq<Input>)
    requires Stamped(inputs)
    ensures Balanced(After(stored, mc, inputs).books)
    ensures var before := After(stored, mc, inputs).books;
      Booted(before.statistics).status
        == before.status.(moving := false, orientation := Unknown, tamper := false, flags := {}, lastMovement := 0)
  {
    if inputs != [] {
      CountersSurviveRestart(stored, mc, inputs[..|inputs| - 1]);
      hide Evaluate, MotionEvents, Enqueue, Process, MotionFlags;
    }
  }

  // ---- Counters and events ----

  lemma MaybeCounts(events: seq<Event>, occurred: bool, kind: EventType, severity: Severity, value: int, k: EventType)
    ensures CountKind(events + Maybe(occurred, kind, severity, value), k) == CountKind(events, k) + if occurred
        && kind == k then 1 else 0
  {
    CountKindJoin(events, Maybe(occurred, kind, severity, value), k);
    CountNothing(k);
    assert [Event(kind, severity, value)][..0] == [];
  }

  lemma MotionEventsKinds(r: MotionResult, k: EventType)
    requires k == Shock || k == FreeFall || k == SensorFault
    ensures CountKind(MotionEvents(r), k) == if (k == Shock && r.shock) || (k == FreeFall && r.freeFall) then 1 else 0
  {
    hide CountKind, Maybe, Int16, OrientationValue;
    CountNothing(k);
    var stopped := if r.duration < INT16_MAX then r.duration else INT16_MAX;
    var e0: seq<Event> := [];
    var e1 := e0 + Maybe(r.start, MotionStart, InfoSeverity, 0);
    var e2 := e1 + Maybe(r.stop, MotionStop, InfoSeverity, stopped);
    var e3 := e2 + Maybe(r.shock, Shock, AlarmSeverity, Int16(r.shockMg));
    var e4 := e3 + Maybe(r.freeFall, FreeFall, AlarmSeverity, 0);
    var e5 := e4 + Maybe(r.turned, OrientationChange, InfoSeverity, OrientationValue(r.orientation));
    assert e1 == Maybe(r.start, MotionStart, InfoSeverity, 0);
    assert MotionEvents(r) == e5 + Maybe(r.tamper, Tamper, AlarmSeverity, 0);
    MaybeCounts(e0, r.start, MotionStart, InfoSeverity, 0, k);
    MaybeCounts(e1, r.stop, MotionStop, InfoSeverity, stopped, k);
    MaybeCounts(e2, r.shock, Shock, AlarmSeverity, Int16(r.shockMg), k);
    MaybeCounts(e3, r.freeFall, FreeFall, AlarmSeverity, 0, k);
    MaybeCounts(e4, r.turned, OrientationChange, InfoSeverity, OrientationValue(r.orientation), k);
    MaybeCounts(e5, r.tamper, Tamper, AlarmSeverity, 0, k);
  }

  function Counted(counter: nat, events: seq<Event>, k: EventType, limit: nat): nat
    requires limit > 0
  {
    if CountKind(events, k) == 0 then counter else (counter + CountKind(events, k)) % limit
  }

  /** Each lifetime counter counts the events of its kind that its samples give
      rise to - the sensor faults too when their warning does not fit the queue -
      while the event count goes up by those that are raised. */
  lemma CountersCountEvents(tag: Tag, mc: Config, s: Sample, c: Config, expected: set<Sensor>)
    requires tag.motion.Fits() && s.timestamp < UINT32_LIMIT && Balanced(tag.books)
    ensures var all := AllEvents(tag.motion, mc, tag.books.status, c, expected, s);
      var before, after := tag.books.statistics, Next(tag, mc, Sampled(s, c, expected)).books.statistics;
      && after.shockCount == Counted(before.shockCount, all, Shock, UINT32_LIMIT)
      && after.freeFallCount == Counted(before.freeFallCount, all, FreeFall, UINT32_LIMIT)
      && after.sensorFaults == Counted(before.sensorFaults, all, SensorFault, 0x1_0000)
      && after.eventCount == if all == [] then before.eventCount
          else (before.eventCount + |Enqueue([], all)|) % UINT32_LIMIT
  {
    hide Evaluate, MotionEvents, Process, MotionFlags, Enqueue, ApplySample, Counted;
    SampleCountsEvents(tag.books, Process(tag.motion, mc, s).1, s, c, expected);
  }

  lemma SampleCountsEvents(b: Books, r: MotionResult, s: Sample, c: Config, expected: set<Sensor>)
    requires Balanced(b)
    ensures var all := MotionEvents(r) + Evaluate(b.status.flags + MotionFlags(r), s, c, expected).1;
      var before, after := b.statistics, ApplySample(b, r, s, c, expected).statistics;
      && after.shockCount == Counted(before.shockCount, all, Shock, UINT32_LIMIT)
      && after.freeFallCount == Counted(before.freeFallCount, all, FreeFall, UINT32_LIMIT)
      && after.sensorFaults == Counted(before.sensorFaults, all, SensorFault, 0x1_0000)
      && after.eventCount == if all == [] then before.eventCount
          else (before.eventCount + |Enqueue([], all)|) % UINT32_LIMIT
  {
    hide Evaluate, MotionEvents, CountKind, MotionFlags, Enqueue, ApplySample;
    SampleKinds(b.status.flags, r, s, c, expected);
    SampledCounters(b, r, s, c, expected);
  }

  /** The events of a sample, by kind. */
  lemma SampleKinds(flags: set<Alarm>, r: MotionResult, s: Sample, c: Config, expected: set<Sensor>)
    ensures var evaluated := Evaluate(flags + MotionFlags(r), s, c, expected);
      var all := MotionEvents(r) + evaluated.1;
      && CountKind(all, Shock) == (if r.shock then 1 else 0)
      && CountKind(all, FreeFall) == (if r.freeFall then 1 else 0)
      && CountKind(all, SensorFault) == if SensorFaultAlarm in evaluated.0
          && SensorFaultAlarm !in flags + MotionFlags(r) then 1 else 0
  {
    hide Evaluate, MotionEvents, CountKind, MotionFlags;
    var alarms := Evaluate(flags + MotionFlags(r), s, c, expected).1;
    MotionEventsKinds(r, Shock);
    MotionEventsKinds(r, FreeFall);
    MotionEventsKinds(r, SensorFault);
    EvaluateMeans(flags + MotionFlags(r), s, c, expected, ShockAlarm);
    EvaluateMeans(flags + MotionFlags(r), s, c, expected, FreeFallAlarm);
    EvaluateMeans(flags + MotionFlags(r), s, c, expected, SensorFaultAlarm);
    CountKindJoin(MotionEvents(r), alarms, Shock);
    CountKindJoin(MotionEvents(r), alarms, FreeFall);
    CountKindJoin(MotionEvents(r), alarms, SensorFault);
  }

  lemma SampledCounters(b: Books, r: MotionResult, s: Sample, c: Config, expected: set<Sensor>)
    requires Balanced(b)
    ensures var evaluated := Evaluate(b.status.flags + MotionFlags(r), s, c, expected);
      var after := ApplySample(b, r, s, c, expected).statistics;
      var all := MotionEvents(r) + evaluated.1;
      && after.shockCount == (if r.shock then Add32(b.statistics.shockCount, 1) else b.statistics.shockCount)
      && after.freeFallCount == (if r.freeFall then Add32(b.statistics.freeFallCount, 1)
                                 else b.statistics.freeFallCount)
      && after.sensorFaults == (if SensorFaultAlarm in evaluated.0
                                && SensorFaultAlarm !in b.status.flags + MotionFlags(r)
                                then Add16(b.statistics.sensorFaults, 1) else b.statistics.sensorFaults)
      && after.eventCount == (if all == [] then b.statistics.eventCount
                              else Add32(b.statistics.eventCount, |Enqueue([], all)|))
  {
    hide Evaluate, MotionEvents, MotionFlags;
  }
}
