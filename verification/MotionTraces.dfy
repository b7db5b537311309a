/** Facts about whole histories of samples: when the tag is moving, how movement
    time adds up, and what a tamper event implies. */
module MotionTraces {
  import opened SmartTag
  import opened MotionClassifier
  import opened MotionManager
  import Latch

  datatype Input = Sampled(sample: Sample) | TamperCleared

  function Next(m: Motion, c: Config, input: Input): (m': Motion)
    requires m.Fits() && (input.Sampled? ==> input.sample.timestamp < UINT32_LIMIT)
    ensures m'.Fits()
  {
    match input
    case Sampled(s) => Process(m, c, s).0
    case TamperCleared => m.(tamper := false)
  }

  /** Timestamps are uint32_t. */
  ghost predicate Stamped(trace: seq<Input>) {
    forall k :: 0 <= k < |trace| && trace[k].Sampled? ==> trace[k].sample.timestamp < UINT32_LIMIT
  }

  function After(c: Config, trace: seq<Input>): (m: Motion)
    requires Stamped(trace)
    ensures m.Fits()
  {
    if trace == [] then INITIAL else Next(After(c, trace[..|trace| - 1]), c, trace[|trace| - 1])
  }

  // ---- Histories, without the machine ----

  predicate Usable(input: Input) {
    input.Sampled? && Accel in input.sample.valid
  }

  predicate Active(c: Config, input: Input) {
    Usable(input) && IsActive(input.sample, c.motionThreshold)
  }

  /** The time of the last sample with acceleration, and of the first. */
  function LastUsable(trace: seq<Input>): Option<nat> {
    if trace == [] then None
    else if Usable(trace[|trace| - 1]) then Some(trace[|trace| - 1].sample.timestamp)
    else LastUsable(trace[..|trace| - 1])
  }

  function FirstUsable(trace: seq<Input>): Option<nat> {
    if trace == [] then None
    else if FirstUsable(trace[..|trace| - 1]) != None then FirstUsable(trace[..|trace| - 1])
    else if Usable(trace[|trace| - 1]) then Some(trace[|trace| - 1].sample.timestamp)
    else None
  }

  /** The time of the last sample that looked like motion. */
  function LastActive(c: Config, trace: seq<Input>): Option<nat> {
    if trace == [] then None
    else if Active(c, trace[|trace| - 1]) then Some(trace[|trace| - 1].sample.timestamp)
    else LastActive(c, trace[..|trace| - 1])
  }

  function LastFacing(trace: seq<Input>): Orientation {
    if trace == [] then Unknown
    else
      var last := trace[|trace| - 1];
      if Usable(last) && OrientationOf(last.sample) != Unknown then OrientationOf(last.sample)
      else LastFacing(trace[..|trace| - 1])
  }

  ghost predicate InOrder(trace: seq<Input>) {
    forall i, j :: 0 <= i < j < |trace| && Usable(trace[i]) && Usable(trace[j]) ==>
      trace[i].sample.timestamp <= trace[j].sample.timestamp
  }

  // ---- Marks: the START and STOP events of a trace ----

  datatype Mark = Start | Stop(duration: nat)

  function MarksOf(r: MotionResult): seq<Mark> {
    (if r.start then [Start] else []) + (if r.stop then [Stop(r.duration)] else [])
  }

  function Marks(c: Config, trace: seq<Input>): seq<Mark>
    requires Stamped(trace)
  {
    if trace == [] then []
    else
      var before, last := trace[..|trace| - 1], trace[|trace| - 1];
      Marks(c, before) + if last.Sampled? then MarksOf(Process(After(c, before), c, last.sample).1) else []
  }

  function MovementTime(marks: seq<Mark>): nat {
    if marks == [] then 0
    else MovementTime(marks[..|marks| - 1]) + match marks[|marks| - 1] { case Start => 0 case Stop(d) => d }
  }

  function Stops(marks: seq<Mark>): nat {
    if marks == [] then 0
    else Stops(marks[..|marks| - 1]) + if marks[|marks| - 1].Stop? then 1 else 0
  }

  lemma MarksPush(marks: seq<Mark>, mark: Mark)
    ensures MovementTime(marks + [mark]) == MovementTime(marks) + match mark { case Start => 0 case Stop(d) => d }
    ensures Stops(marks + [mark]) == Stops(marks) + if mark.Stop? then 1 else 0
  {
    assert (marks + [mark])[..|marks|] == marks;
  }

  // ---- The closed form of the motion state ----

  lemma {:induction false} TimesInOrder(c: Config, trace: seq<Input>)
    requires InOrder(trace) && Stamped(trace)
    ensures forall k :: 0 <= k < |trace| && Usable(trace[k]) ==>
      LastUsable(trace).Some? && FirstUsable(trace).Some?
      && FirstUsable(trace).value <= trace[k].sample.timestamp <= LastUsable(trace).value
    ensures forall k :: 0 <= k < |trace| && Active(c, trace[k]) ==>
      LastActive(c, trace).Some? && trace[k].sample.timestamp <= LastActive(c, trace).value
    ensures LastUsable(trace).Some? ==> LastUsable(trace).value < UINT32_LIMIT
    ensures LastActive(c, trace).Some? ==>
      && LastUsable(trace).Some? && FirstUsable(trace).Some?
      && FirstUsable(trace).value <= LastActive(c, trace).value <= LastUsable(trace).value
    ensures FirstUsable(trace).Some? <==> LastUsable(trace).Some?
    ensures LastUsable(trace).Some? ==>
      exists k :: 0 <= k < |trace| && Usable(trace[k]) && trace[k].sample.timestamp == LastUsable(trace).value
  {
    if trace != [] {
      var n := |trace| - 1;
      TimesInOrder(c, trace[..n]);
      forall k | 0 <= k < n ensures trace[..n][k] == trace[k] {
      }
    }
  }

  /** A new sample is no earlier than anything before it. */
  lemma NewSampleIsLatest(c: Config, trace: seq<Input>)
    requires trace != [] && InOrder(trace) && Stamped(trace) && Usable(trace[|trace| - 1])
    ensures var before, now := trace[..|trace| - 1], trace[|trace| - 1].sample.timestamp;
      && (LastUsable(before).Some? ==> LastUsable(before).value <= now)
      && (LastActive(c, before).Some? ==> LastActive(c, before).value <= now)
  {
    var n := |trace| - 1;
    TimesInOrder(c, trace[..n]);
    if LastUsable(trace[..n]).Some? {
      var k :| 0 <= k < n && Usable(trace[..n][k]) && trace[..n][k].sample.timestamp == LastUsable(trace[..n]).value;
      assert trace[k] == trace[..n][k];
    }
  }

  /** Moving means: the latest sample is less than the timeout after the last one
      that looked like motion. */
  ghost predicate MovingByHistory(c: Config, trace: seq<Input>) {
    && LastActive(c, trace).Some? && LastUsable(trace).Some?
    && LastUsable(trace).value < LastActive(c, trace).value + c.motionTimeout
  }

  /** The motion state is a function of the history: the two latest times decide. */
  lemma {:induction false} MotionClosedForm(c: Config, trace: seq<Input>)
    requires InOrder(trace) && Stamped(trace) && c.motionTimeout >= 1
    ensures After(c, trace).moving <==> MovingByHistory(c, trace)
    ensures LastActive(c, trace).Some? ==> After(c, trace).lastActive == LastActive(c, trace).value
  {
    if trace != [] {
      var n := |trace| - 1;
      MotionClosedForm(c, trace[..n]);
      TimesInOrder(c, trace[..n]);
      if Usable(trace[n]) {
        NewSampleIsLatest(c, trace);
      }
    }
  }

  // ---- Alternation and the movement-time budget ----

  ghost predicate Alternates(marks: seq<Mark>) {
    forall k :: 0 <= k < |marks| ==> (marks[k].Start? <==> k % 2 == 0)
  }

  /** What one input does to the machine's times and to the marks. */
  ghost predicate StepOfMarks(m: Motion, m': Motion, marks: seq<Mark>, marks': seq<Mark>, c: Config, input: Input)
    requires m.Fits()
  {
    if !Usable(input) then marks' == marks && m' == m.(tamper := m'.tamper)
    else
      var now := input.sample.timestamp;
      if Active(c, input) && !m.moving then
        marks' == marks + [Start] && m'.moving && m'.startedAt == now && m'.lastActive == now && m'.total == m.total
      else if Active(c, input) then
        marks' == marks && m'.moving && m'.startedAt == m.startedAt && m'.lastActive == now && m'.total == m.total
      else if m.moving && Sub32(now, m.lastActive) >= c.motionTimeout then
        && marks' == marks + [Stop(Sub32(m.lastActive, m.startedAt))] && !m'.moving
        && m'.total == Add32(m.total, Sub32(m.lastActive, m.startedAt))
      else
        && marks' == marks && m'.moving == m.moving && m'.startedAt == m.startedAt
        && m'.lastActive == m.lastActive && m'.total == m.total
  }

  lemma MarksStep(c: Config, trace: seq<Input>)
    requires trace != [] && Stamped(trace)
    ensures var n := |trace| - 1;
      StepOfMarks(After(c, trace[..n]), After(c, trace), Marks(c, trace[..n]), Marks(c, trace), c, trace[n])
  {
    hide Add32, Sub32, OrientationOf, IsActive;
  }

  /** START and STOP strictly alternate, beginning with START, whatever the
      timestamps; the tag is moving exactly when the last one was START. */
  lemma {:induction false} StartsAndStopsAlternate(c: Config, trace: seq<Input>)
    requires Stamped(trace)
    ensures Alternates(Marks(c, trace))
    ensures After(c, trace).moving <==> |Marks(c, trace)| % 2 == 1
  {
    if trace != [] {
      StartsAndStopsAlternate(c, trace[..|trace| - 1]);
      MarksStep(c, trace);
    }
  }

  /** Movement time plus one timeout for every STOP. */
  function Spent(marks: seq<Mark>, timeout: nat): nat {
    if marks == [] then 0
    else Spent(marks[..|marks| - 1], timeout) + match marks[|marks| - 1] { case Start => 0 case Stop(d) => d + timeout }
  }

  lemma SpentPush(marks: seq<Mark>, mark: Mark, timeout: nat)
    ensures Spent(marks + [mark], timeout) == Spent(marks, timeout)
        + match mark { case Start => 0 case Stop(d) => d + timeout }
  {
    assert (marks + [mark])[..|marks|] == marks;
  }

  lemma {:induction false} SpentIsSum(marks: seq<Mark>, timeout: nat)
    ensures Spent(marks, timeout) == MovementTime(marks) + timeout * Stops(marks)
  {
    if marks != [] {
      SpentIsSum(marks[..|marks| - 1], timeout);
    }
  }

  /** What the marks have cost so far fits into the time from the first sample on. */
  ghost predicate Budget(m: Motion, marks: seq<Mark>, first: Option<nat>, last: Option<nat>, timeout: nat) {
    && m.total == MovementTime(marks) <= Spent(marks, timeout)
    && (first == None ==> marks == [] && !m.moving)
    && (first.Some? && last.Some? ==>
          && first.value + Spent(marks, timeout) <= (if m.moving then m.startedAt else last.value)
          && (m.moving ==> first.value <= m.startedAt <= m.lastActive <= last.value < UINT32_LIMIT))
  }

  ghost predicate WithinBudget(c: Config, trace: seq<Input>)
    requires Stamped(trace)
  {
    Budget(After(c, trace), Marks(c, trace), FirstUsable(trace), LastUsable(trace), c.motionTimeout)
  }

  /** The times of the first and the latest sample after one more at `now`. */
  function FirstWith(first: Option<nat>, now: nat): Option<nat> {
    if first == None then Some(now) else first
  }

  lemma BudgetStarts(m: Motion, m': Motion, marks: seq<Mark>, first: Option<nat>, last: Option<nat>, now: nat,
                     timeout: nat)
    requires Budget(m, marks, first, last, timeout) && (first.Some? <==> last.Some?)
        && (last.Some? ==> last.value <= now)
    requires now < UINT32_LIMIT && !m.moving
    requires m'.moving && m'.startedAt == now && m'.lastActive == now && m'.total == m.total
    ensures Budget(m', marks + [Start], FirstWith(first, now), Some(now), timeout)
  {
    hide MovementTime, Spent;
    MarksPush(marks, Start);
    SpentPush(marks, Start, timeout);
    NothingSpent(timeout);
  }

  lemma BudgetStops(m: Motion, m': Motion, marks: seq<Mark>, first: Option<nat>, last: Option<nat>, now: nat,
                    timeout: nat)
    requires Budget(m, marks, first, last, timeout) && (first.Some? <==> last.Some?)
        && (last.Some? ==> last.value <= now)
    requires now < UINT32_LIMIT && m.moving && Sub32(now, m.lastActive) >= timeout
    requires !m'.moving && m'.total == Add32(m.total, Sub32(m.lastActive, m.startedAt))
    ensures m.startedAt <= m.lastActive < UINT32_LIMIT
    ensures Budget(m', marks + [Stop(m.lastActive - m.startedAt)], FirstWith(first, now), Some(now), timeout)
  {
    hide MovementTime, Spent;
    var stop := Stop(m.lastActive - m.startedAt);
    MarksPush(marks, stop);
    SpentPush(marks, stop, timeout);
  }

  lemma BudgetGoesOn(m: Motion, m': Motion, marks: seq<Mark>, first: Option<nat>, last: Option<nat>, now: nat,
                     timeout: nat)
    requires Budget(m, marks, first, last, timeout) && (first.Some? <==> last.Some?)
        && (last.Some? ==> last.value <= now)
    requires now < UINT32_LIMIT && m'.moving == m.moving && m'.startedAt == m.startedAt && m'.total == m.total
    requires m'.lastActive == m.lastActive || (m.moving && m'.lastActive == now)
    ensures Budget(m', marks, FirstWith(first, now), Some(now), timeout)
  {
    hide MovementTime, Spent;
    NothingSpent(timeout);
  }

  lemma NothingSpent(timeout: nat)
    ensures Spent([], timeout) == 0
  {
  }

  lemma FitsAfter(c: Config, trace: seq<Input>)
    requires Stamped(trace)
    ensures After(c, trace).Fits()
  {
  }

  /** The step of the machine, with nothing but its arguments in sight. */
  lemma BudgetStep(c: Config, trace: seq<Input>)
    requires trace != [] && InOrder(trace) && Stamped(trace)
    requires WithinBudget(c, trace[..|trace| - 1])
    ensures WithinBudget(c, trace)
  {
    hide *;
    var n := |trace| - 1;
    StampedPrefix(trace);
    MarksStep(c, trace);
    UsableStep(c, trace);
    BudgetMeans(c, trace[..n]);
    BudgetMeans(c, trace);
    FitsAfter(c, trace[..n]);
    BudgetOfStep(After(c, trace[..n]), After(c, trace), Marks(c, trace[..n]), Marks(c, trace),
                 FirstUsable(trace[..n]), LastUsable(trace[..n]), c, trace[n]);
  }

  lemma StampedPrefix(trace: seq<Input>)
    requires trace != [] && Stamped(trace)
    ensures Stamped(trace[..|trace| - 1])
  {
  }

  lemma BudgetMeans(c: Config, trace: seq<Input>)
    requires Stamped(trace)
    ensures WithinBudget(c, trace)
       <==> Budget(After(c, trace), Marks(c, trace), FirstUsable(trace), LastUsable(trace), c.motionTimeout)
  {
  }

  lemma UsableStep(c: Config, trace: seq<Input>)
    requires trace != [] && InOrder(trace) && Stamped(trace)
    ensures var n := |trace| - 1;
      var first, last := FirstUsable(trace[..n]), LastUsable(trace[..n]);
      && (first.Some? <==> last.Some?)
      && (if Usable(trace[n]) then
            var now := trace[n].sample.timestamp;
            && now < UINT32_LIMIT && (last.Some? ==> last.value <= now)
            && FirstUsable(trace) == FirstWith(first, now) && LastUsable(trace) == Some(now)
          else FirstUsable(trace) == first && LastUsable(trace) == last)
  {
    TimesInOrder(c, trace[..|trace| - 1]);
    if Usable(trace[|trace| - 1]) {
      NewSampleIsLatest(c, trace);
    }
  }

  lemma BudgetOfStep(m: Motion, m': Motion, marks: seq<Mark>, marks': seq<Mark>,
                     first: Option<nat>, last: Option<nat>, c: Config, input: Input)
    requires m.Fits() && Budget(m, marks, first, last, c.motionTimeout) && (first.Some? <==> last.Some?)
    requires Usable(input) ==>
      input.sample.timestamp < UINT32_LIMIT && (last.Some? ==> last.value <= input.sample.timestamp)
    requires StepOfMarks(m, m', marks, marks', c, input)
    ensures if Usable(input) then
              Budget(m', marks', FirstWith(first, input.sample.timestamp), Some(input.sample.timestamp),
                     c.motionTimeout)
            else Budget(m', marks', first, last, c.motionTimeout)
  {
    hide MovementTime, Spent, IsActive, Budget;
    if Usable(input) {
      var now := input.sample.timestamp;
      if Active(c, input) && !m.moving {
        BudgetStarts(m, m', marks, first, last, now, c.motionTimeout);
      } else if !Active(c, input) && m.moving && Sub32(now, m.lastActive) >= c.motionTimeout {
        BudgetStops(m, m', marks, first, last, now, c.motionTimeout);
      } else {
        BudgetGoesOn(m, m', marks, first, last, now, c.motionTimeout);
      }
    } else {
      BudgetIdles(m, m', marks, first, last, c.motionTimeout);
    }
  }

  lemma BudgetIdles(m: Motion, m': Motion, marks: seq<Mark>, first: Option<nat>, last: Option<nat>, timeout: nat)
    requires Budget(m, marks, first, last, timeout) && m' == m.(tamper := m'.tamper)
    ensures Budget(m', marks, first, last, timeout)
  {
  }

  lemma {:induction false} BudgetHolds(c: Config, trace: seq<Input>)
    requires InOrder(trace) && Stamped(trace)
    ensures WithinBudget(c, trace)
  {
    if trace != [] {
      BudgetHolds(c, trace[..|trace| - 1]);
      BudgetStep(c, trace);
    }
  }

  /** The movement total is the sum of the durations reported with STOP events, and
      with one timeout for every STOP it never exceeds the time that has passed. */
  lemma MovementBudget(c: Config, trace: seq<Input>)
    requires InOrder(trace) && Stamped(trace)
    ensures After(c, trace).total == MovementTime(Marks(c, trace))
    ensures LastUsable(trace).Some? <==> FirstUsable(trace).Some?
    ensures LastUsable(trace).Some? ==>
      After(c, trace).total + c.motionTimeout * Stops(Marks(c, trace))
        <= LastUsable(trace).value - FirstUsable(trace).value
  {
    BudgetHolds(c, trace);
    TimesInOrder(c, trace);
    SpentIsSum(Marks(c, trace), c.motionTimeout);
  }

  // ---- Tamper ----

  ghost predicate TamperAt(c: Config, trace: seq<Input>)
    requires Stamped(trace)
  {
    trace != [] && trace[|trace| - 1].Sampled?
    && Process(After(c, trace[..|trace| - 1]), c, trace[|trace| - 1].sample).1.tamper
  }

  lemma {:induction false} OrientationIsLastFacing(c: Config, trace: seq<Input>)
    requires Stamped(trace)
    ensures After(c, trace).orientation == LastFacing(trace)
  {
    if trace != [] {
      OrientationIsLastFacing(c, trace[..|trace| - 1]);
    }
  }

  /** While the tag rests, the rest began at least one timeout after the last
      motion, or at boot. */
  lemma {:induction false} RestBegan(c: Config, trace: seq<Input>)
    requires InOrder(trace) && Stamped(trace) && c.motionTimeout >= 1
    ensures var m := After(c, trace);
      !m.moving ==> match LastActive(c, trace)
                    case None => m.stationarySince == 0
                    case Some(time) => time + c.motionTimeout <= m.stationarySince
    ensures LastUsable(trace).Some? && After(c, trace).stationarySince != 0
        ==> After(c, trace).stationarySince <= LastUsable(trace).value
    ensures LastUsable(trace) == None ==> After(c, trace).stationarySince == 0
  {
    if trace != [] {
      var n := |trace| - 1;
      RestBegan(c, trace[..n]);
      MotionClosedForm(c, trace[..n]);
      TimesInOrder(c, trace[..n]);
      if Usable(trace[n]) {
        NewSampleIsLatest(c, trace);
      }
    }
  }

  /** A tamper event means what it says: every earlier sample that looked like
      motion is at least 300 s plus the timeout old (or there is none and the tag
      has been up for 300 s), this very sample is further from one g than the shock
      threshold, and the tag now faces another way than it last did. */
  lemma TamperIsSound(c: Config, trace: seq<Input>)
    requires InOrder(trace) && Stamped(trace) && c.motionTimeout >= 1 && TamperAt(c, trace)
    ensures var before, s := trace[..|trace| - 1], trace[|trace| - 1].sample;
      && Accel in s.valid
      && (forall k :: 0 <= k < |before| && Active(c, before[k]) ==>
            before[k].sample.timestamp + c.motionTimeout + TAMPER_SETTLED_S <= s.timestamp)
      && TAMPER_SETTLED_S <= s.timestamp
      && Abs(Deviation(s)) > c.shockThreshold
      && LastFacing(before) != Unknown && OrientationOf(s) != Unknown && LastFacing(before) != OrientationOf(s)
  {
    var before := trace[..|trace| - 1];
    NewSampleIsLatest(c, trace);
    TimesInOrder(c, before);
    RestBegan(c, before);
    OrientationIsLastFacing(c, before);
  }

  function TamperSteps(c: Config, trace: seq<Input>): (steps: seq<Latch.Step>)
    requires Stamped(trace)
    ensures |steps| == |trace|
  {
    seq(|trace|, k requires 0 <= k < |trace| =>
      Latch.Step(After(c, trace[..k]).tamper, After(c, trace[..k + 1]).tamper,
                 trace[k].Sampled? && Process(After(c, trace[..k]), c, trace[k].sample).1.tamper,
                     trace[k].TamperCleared?))
  }

  lemma AfterOne(c: Config, trace: seq<Input>, k: nat)
    requires Stamped(trace) && k < |trace|
    ensures After(c, trace[..k + 1]) == Next(After(c, trace[..k]), c, trace[k])
  {
    assert trace[..k + 1][..k] == trace[..k];
  }

  lemma TamperStepsChain(c: Config, trace: seq<Input>)
    requires Stamped(trace)
    ensures Latch.Chained(TamperSteps(c, trace))
  {
    hide After, Process, Next;
    forall k | 0 <= k < |trace| ensures Latch.Obeys(TamperSteps(c, trace)[k]) {
      AfterOne(c, trace, k);
      TamperObeys(After(c, trace[..k]), c, trace[k]);
    }
  }

  lemma TamperObeys(m: Motion, c: Config, input: Input)
    requires m.Fits() && (input.Sampled? ==> input.sample.timestamp < UINT32_LIMIT)
    ensures Latch.Obeys(Latch.Step(m.tamper, Next(m, c, input).tamper,
                                   input.Sampled? && Process(m, c, input.sample).1.tamper, input.TamperCleared?))
  {
  }

  lemma TamperFired(c: Config, trace: seq<Input>, k: nat)
    requires Stamped(trace) && k < |trace|
    ensures TamperAt(c, trace[..k + 1]) <==> TamperSteps(c, trace)[k].fired
  {
    assert trace[..k + 1][..k] == trace[..k];
  }

  /** Between two tamper events the flag has been cleared. */
  lemma TamperRearms(c: Config, trace: seq<Input>, i: nat, j: nat) returns (k: nat)
    requires Stamped(trace) && i < j < |trace| && TamperAt(c, trace[..i + 1]) && TamperAt(c, trace[..j + 1])
    ensures i < k < j && trace[k].TamperCleared?
  {
    hide After, Process, TamperAt;
    TamperStepsChain(c, trace);
    TamperFired(c, trace, i);
    TamperFired(c, trace, j);
    assert Latch.Obeys(TamperSteps(c, trace)[i]);
    k := Latch.RearmedBetween(TamperSteps(c, trace), i, j);
  }
}
