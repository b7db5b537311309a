/** What the motion manager reports of each sample, as a function of the history of
    samples alone: when movements start and stop and how long they lasted, which
    impacts, falls and turns are reported, and when tampering is inferred. */
module MotionReports {
  import opened SmartTag
  import opened MotionClassifier
  import opened MotionManager
  import opened MotionTraces
  import ShockDetector

  // ---- Histories, without the machine ----

  /** The latest input ends a movement: it is quiet, and the timeout has passed. */
  predicate Stops(c: Config, before: seq<Input>, input: Input) {
    && Usable(input) && !Active(c, input)
    && LastActive(c, before).Some? && LastUsable(before).Some?
    && LastUsable(before).value < LastActive(c, before).value + c.motionTimeout
    && LastActive(c, before).value + c.motionTimeout <= input.sample.timestamp
  }

  /** When the latest movement began, and when the latest rest did: at boot, or with
      the sample that ended a movement. */
  function MovementStart(c: Config, trace: seq<Input>): nat {
    if trace == [] then 0
    else
      var before, last := trace[..|trace| - 1], trace[|trace| - 1];
      if Active(c, last) && !WasMoving(c, before) then last.sample.timestamp else MovementStart(c, before)
  }

  function RestStart(c: Config, trace: seq<Input>): nat {
    if trace == [] then 0
    else
      var before, last := trace[..|trace| - 1], trace[|trace| - 1];
      if Stops(c, before, last) then last.sample.timestamp else RestStart(c, before)
  }

  /** The latest sample was less than the timeout after the last active one. */
  predicate WasMoving(c: Config, trace: seq<Input>) {
    && LastActive(c, trace).Some? && LastUsable(trace).Some?
    && LastUsable(trace).value < LastActive(c, trace).value + c.motionTimeout
  }

  /** What the shock detector has seen: the samples with acceleration. */
  function Readings(c: Config, trace: seq<Input>): seq<ShockDetector.Reading> {
    if trace == [] then []
    else
      var before, last := trace[..|trace| - 1], trace[|trace| - 1];
      Readings(c, before) + if Usable(last) then [ReadingOf(c, last.sample)] else []
  }

  function ReadingOf(c: Config, s: Sample): ShockDetector.Reading {
    ShockDetector.Reading(s, c.shockThreshold, c.freeFallThreshold)
  }

  ghost predicate Struck(c: Config, before: seq<Input>, s: Sample) {
    && Accel in s.valid && ShockDetector.Impact(ReadingOf(c, s))
    && !ShockDetector.Standing(Readings(c, before), ShockDetector.Impact, ShockDetector.Calm)
  }

  ghost predicate Fell(c: Config, before: seq<Input>, s: Sample) {
    && Accel in s.valid && ShockDetector.Falling(ReadingOf(c, s))
    && !ShockDetector.Standing(Readings(c, before), ShockDetector.Falling, ShockDetector.Landed)
  }

  predicate Turned(before: seq<Input>, s: Sample) {
    && Accel in s.valid && OrientationOf(s) != Unknown
    && LastFacing(before) != Unknown && LastFacing(before) != OrientationOf(s)
  }

  /** Struck and turned after at least five minutes of rest. */
  ghost predicate Provoked(c: Config, before: seq<Input>, s: Sample) {
    && Struck(c, before, s) && Turned(before, s) && !WasMoving(c, before)
    && RestStart(c, before) + 300 <= s.timestamp
  }

  /** Tampering has been inferred and not been cleared since. */
  ghost predicate Pending(c: Config, trace: seq<Input>) {
    if trace == [] then false
    else
      var before := trace[..|trace| - 1];
      match trace[|trace| - 1]
      case TamperCleared => false
      case Sampled(s) => Pending(c, before) || Provoked(c, before, s)
  }

  // ---- The machine remembers the history ----

  ghost predicate Remembers(m: Motion, c: Config, trace: seq<Input>) {
    && (m.moving <==> WasMoving(c, trace))
    && (LastActive(c, trace).Some? ==> m.lastActive == LastActive(c, trace).value)
    && (m.moving ==> m.startedAt == MovementStart(c, trace))
    && m.stationarySince == RestStart(c, trace)
    && m.orientation == LastFacing(trace)
    && m.tamper == Pending(c, trace)
    && m.detector == ShockDetector.After(ShockDetector.Detector(false, false, 0), Readings(c, trace))
  }

  /** The times that matter for one more input, in order. */
  lemma TimesFit(c: Config, trace: seq<Input>)
    requires trace != [] && InOrder(trace) && Stamped(trace) && Usable(trace[|trace| - 1])
    ensures var before, now := trace[..|trace| - 1], trace[|trace| - 1].sample.timestamp;
      && now < UINT32_LIMIT
      && (LastUsable(before).Some? ==> LastUsable(before).value <= now)
      && (LastActive(c, before).Some? ==> LastActive(c, before).value <= now && LastUsable(before).Some?)
      && RestStart(c, before) <= now
  {
    var before := trace[..|trace| - 1];
    NewSampleIsLatest(c, trace);
    TimesInOrder(c, before);
    RestIsPast(c, before);
  }

  lemma {:induction false} RestIsPast(c: Config, trace: seq<Input>)
    requires InOrder(trace) && Stamped(trace)
    ensures RestStart(c, trace) > 0 ==> LastUsable(trace).Some? && RestStart(c, trace) <= LastUsable(trace).value
  {
    if trace != [] {
      var n := |trace| - 1;
      RestIsPast(c, trace[..n]);
      if Usable(trace[n]) {
        NewSampleIsLatest(c, trace);
      }
    }
  }

  lemma ReadingsPush(c: Config, trace: seq<Input>)
    requires trace != []
    ensures var n := |trace| - 1;
      Readings(c, trace) == if Usable(trace[n]) then Readings(c, trace[..n]) + [ReadingOf(c, trace[n].sample)]
                            else Readings(c, trace[..n])
  {
  }

  /** The detector's part of a sample. */
  lemma DetectorStep(c: Config, before: seq<Input>, s: Sample)
    requires Accel in s.valid
    ensures var start := ShockDetector.Detector(false, false, 0);
      var readings := Readings(c, before);
      var step := ShockDetector.Detect(ShockDetector.After(start, readings), s, c.shockThreshold, c.freeFallThreshold);
      var (after, result) := (step.0, step.1);
      && after == ShockDetector.After(start, readings + [ReadingOf(c, s)])
      && (result.shock <==> Struck(c, before, s)) && (result.freeFall <==> Fell(c, before, s))
      && (result.shock ==> result.peak == ShockDetector.Hardness(ReadingOf(c, s)))
  {
    var readings, r := Readings(c, before), ReadingOf(c, s);
    assert (readings + [r])[..|readings|] == readings;
    ShockDetector.LatchesByHistory(readings);
    hide ShockDetector.After, ShockDetector.Standing, Readings;
  }

  /** What one sample makes of a machine that remembers the history before it. */
  ghost predicate Reports(r: MotionResult, c: Config, before: seq<Input>, s: Sample) {
    && (r.start <==> Accel in s.valid && IsActive(s, c.motionThreshold) && !WasMoving(c, before))
    && (r.stop <==> Stops(c, before, Sampled(s)))
    && r.duration == (if r.stop then LastActive(c, before).value - MovementStart(c, before) else 0)
    && (r.shock <==> Struck(c, before, s))
    && r.shockMg == (if r.shock then ShockDetector.Hardness(ReadingOf(c, s)) else 0)
    && (r.freeFall <==> Fell(c, before, s))
    && (r.turned <==> Turned(before, s))
    && (r.tamper <==> Provoked(c, before, s) && !Pending(c, before))
  }

  /** The times that the machine remembers, after one more sample. */
  lemma SampleRemembered(m: Motion, c: Config, trace: seq<Input>)
    requires trace != [] && InOrder(trace) && Stamped(trace) && Usable(trace[|trace| - 1]) && c.motionTimeout >= 1
    requires m.Fits() && Remembers(m, c, trace[..|trace| - 1])
    ensures var before, s := trace[..|trace| - 1], trace[|trace| - 1].sample;
      Remembers(Process(m, c, s).0, c, trace) && Reports(Process(m, c, s).1, c, before, s)
  {
    hide Readings, ShockDetector.Detect, ShockDetector.After, Struck, Fell, OrientationOf, IsActive, Add32,
        ShockDetector.Hardness;
    var before, s := trace[..|trace| - 1], trace[|trace| - 1].sample;
    TimesFit(c, trace);
    MovementIsPast(c, before);
    ReadingsPush(c, trace);
    DetectorStep(c, before, s);
  }

  lemma {:induction false} MovementIsPast(c: Config, trace: seq<Input>)
    requires InOrder(trace) && Stamped(trace)
    ensures LastActive(c, trace).Some? ==> MovementStart(c, trace) <= LastActive(c, trace).value
  {
    if trace != [] {
      var n := |trace| - 1;
      MovementIsPast(c, trace[..n]);
      if Usable(trace[n]) {
        NewSampleIsLatest(c, trace);
      }
    }
  }

  lemma OtherRemembered(m: Motion, c: Config, trace: seq<Input>)
    requires trace != [] && Stamped(trace) && !Usable(trace[|trace| - 1]) && m.Fits()
        && Remembers(m, c, trace[..|trace| - 1])
    ensures Remembers(Next(m, c, trace[|trace| - 1]), c, trace)
    ensures trace[|trace| - 1].Sampled? ==>
      Reports(Process(m, c, trace[|trace| - 1].sample).1, c, trace[..|trace| - 1], trace[|trace| - 1].sample)
  {
    ReadingsPush(c, trace);
    hide Readings, ShockDetector.After, ShockDetector.Detect, ShockDetector.Standing, OrientationOf, IsActive;
  }

  lemma {:induction false} AlwaysRemembers(c: Config, trace: seq<Input>)
    requires InOrder(trace) && Stamped(trace) && c.motionTimeout >= 1
    ensures Remembers(After(c, trace), c, trace)
  {
    if trace != [] {
      var n := |trace| - 1;
      AlwaysRemembers(c, trace[..n]);
      hide Remembers, Reports, Process;
      if Usable(trace[n]) {
        SampleRemembered(After(c, trace[..n]), c, trace);
      } else {
        OtherRemembered(After(c, trace[..n]), c, trace);
      }
    } else {
      Fresh(c);
    }
  }

  lemma Fresh(c: Config)
    ensures Remembers(After(c, []), c, [])
  {
  }

  /** Exactly what is reported of each sample of a trace in time order, by the
      samples before it alone: a START when an active sample finds the tag at rest,
      a STOP with the time from the first to the last active sample when a quiet
      one comes a timeout after the last; the impacts and falls that the detector
      has re-armed for; a turn when the tag faces another way than it last did; and
      tampering when a reported impact turns a tag that has rested for five minutes
      and on which none is pending. */
  lemma ReportedByHistory(c: Config, trace: seq<Input>)
    requires InOrder(trace) && Stamped(trace) && c.motionTimeout >= 1
    requires trace != [] && trace[|trace| - 1].Sampled?
    ensures var before, s := trace[..|trace| - 1], trace[|trace| - 1].sample;
      var r := Process(After(c, before), c, s).1;
      && Reports(r, c, before, s)
      && (r.moving <==> WasMoving(c, trace)) && r.orientation == LastFacing(trace)
  {
    var n := |trace| - 1;
    AlwaysRemembers(c, trace[..n]);
    AlwaysRemembers(c, trace);
    ResultIsState(After(c, trace[..n]), c, trace[n].sample);
    hide Reports, Process;
    if Usable(trace[n]) {
      SampleRemembered(After(c, trace[..n]), c, trace);
    } else {
      OtherRemembered(After(c, trace[..n]), c, trace);
    }
  }

  lemma ResultIsState(m: Motion, c: Config, s: Sample)
    requires m.Fits() && s.timestamp < UINT32_LIMIT
    ensures var step := Process(m, c, s); step.1.moving == step.0.moving && step.1.orientation == step.0.orientation
  {
  }
}
