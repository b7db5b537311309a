/** Shock and free-fall detection with latches that re-arm on calm. */
module ShockDetector {
  import opened SmartTag
  import opened MotionClassifier
  import Latch

  const REARM_DEVIATION_MG: nat := 300

  datatype Detector = Detector(shockLatched: bool, freeFallLatched: bool, peak: nat)

  datatype ShockResult = ShockResult(shock: bool, freeFall: bool, peak: nat)

  function Excursion(s: Sample): nat {
    Abs(Deviation(s))
  }

  function Detect(d: Detector, s: Sample, shockThreshold: nat, freeFallThreshold: nat): (Detector, ShockResult) {
    var falling := s.magnitude < freeFallThreshold;
    var hit := Excursion(s) > shockThreshold;
    var thisPeak := if Excursion(s) < UINT16_MAX then Excursion(s) else UINT16_MAX;
    (Detector(if hit then true else if Excursion(s) < REARM_DEVIATION_MG then false else d.shockLatched,
              if falling then true else if s.magnitude > freeFallThreshold + REARM_DEVIATION_MG then false
                  else d.freeFallLatched,
              if hit && thisPeak > d.peak then thisPeak else d.peak),
     ShockResult(hit && !d.shockLatched, falling && !d.freeFallLatched, if hit then thisPeak else 0))
  }

  class ShockDetector {
    var shockLatched: bool
    var freeFallLatched: bool
    var peakMg: nat

    ghost function State(): Detector
      reads this
    {
      Detector(shockLatched, freeFallLatched, peakMg)
    }

    constructor ()
      ensures State() == Detector(false, false, 0)
    {
      shockLatched, freeFallLatched, peakMg := false, false, 0;
    }

    method Process(s: Sample, shockThreshold: nat, freeFallThreshold: nat) returns (result: ShockResult)
      modifies this
      ensures (State(), result) == Detect(old(State()), s, shockThreshold, freeFallThreshold)
    {
      var excursion := Abs(Deviation(s));
      result := ShockResult(false, false, 0);
      if s.magnitude < freeFallThreshold {
        if !freeFallLatched {
          freeFallLatched := true;
          result := result.(freeFall := true);
        }
      } else if s.magnitude > freeFallThreshold + REARM_DEVIATION_MG {
        freeFallLatched := false;
      }
      if excursion > shockThreshold {
        var thisPeak := if excursion < UINT16_MAX then excursion else UINT16_MAX;
        if thisPeak > peakMg {
          peakMg := thisPeak;
        }
        if !shockLatched {
          shockLatched := true;
          result := result.(shock := true, peak := thisPeak);
        } else if thisPeak > result.peak {
          result := result.(peak := thisPeak);
        }
      } else if excursion < REARM_DEVIATION_MG {
        shockLatched := false;
      }
    }

    method ResetPeak()
      modifies this
      ensures State() == old(State()).(peak := 0)
    {
      peakMg := 0;
    }
  }

  // ---- Traces ----

  /** A sample and the thresholds in force when it was taken. */
  datatype Reading = Reading(sample: Sample, shockThreshold: nat, freeFallThreshold: nat)

  function After(d: Detector, trace: seq<Reading>): Detector {
    if trace == [] then d
    else
      var last := trace[|trace| - 1];
      Detect(After(d, trace[..|trace| - 1]), last.sample, last.shockThreshold, last.freeFallThreshold).0
  }

  function ResultAt(d: Detector, trace: seq<Reading>, k: nat): ShockResult
    requires k < |trace|
  {
    Detect(After(d, trace[..k]), trace[k].sample, trace[k].shockThreshold, trace[k].freeFallThreshold).1
  }

  function ShockSteps(d: Detector, trace: seq<Reading>): (steps: seq<Latch.Step>)
    ensures |steps| == |trace|
  {
    seq(|trace|, k requires 0 <= k < |trace| =>
      Latch.Step(After(d, trace[..k]).shockLatched, After(d, trace[..k + 1]).shockLatched,
                 ResultAt(d, trace, k).shock, Excursion(trace[k].sample) < REARM_DEVIATION_MG))
  }

  function FallSteps(d: Detector, trace: seq<Reading>): (steps: seq<Latch.Step>)
    ensures |steps| == |trace|
  {
    seq(|trace|, k requires 0 <= k < |trace| =>
      Latch.Step(After(d, trace[..k]).freeFallLatched, After(d, trace[..k + 1]).freeFallLatched,
                 ResultAt(d, trace, k).freeFall,
                 trace[k].sample.magnitude > trace[k].freeFallThreshold + REARM_DEVIATION_MG))
  }

  lemma AfterOne(d: Detector, trace: seq<Reading>, k: nat)
    requires k < |trace|
    ensures After(d, trace[..k + 1]) ==
      Detect(After(d, trace[..k]), trace[k].sample, trace[k].shockThreshold, trace[k].freeFallThreshold).0
  {
    assert trace[..k + 1][..k] == trace[..k];
  }

  lemma ShockStepsChain(d: Detector, trace: seq<Reading>)
    ensures Latch.Chained(ShockSteps(d, trace))
  {
    hide After, Detect, Excursion;
    forall k | 0 <= k < |trace| ensures Latch.Obeys(ShockSteps(d, trace)[k]) {
      AfterOne(d, trace, k);
      DetectObeys(After(d, trace[..k]), trace[k]);
    }
  }

  lemma FallStepsChain(d: Detector, trace: seq<Reading>)
    ensures Latch.Chained(FallSteps(d, trace))
  {
    hide After, Detect, Excursion;
    forall k | 0 <= k < |trace| ensures Latch.Obeys(FallSteps(d, trace)[k]) {
      AfterOne(d, trace, k);
      DetectObeys(After(d, trace[..k]), trace[k]);
    }
  }

  lemma DetectObeys(d: Detector, r: Reading)
    ensures var (d', result) := Detect(d, r.sample, r.shockThreshold, r.freeFallThreshold);
      && Latch.Obeys(Latch.Step(d.shockLatched, d'.shockLatched, result.shock,
                                Excursion(r.sample) < REARM_DEVIATION_MG))
      && Latch.Obeys(Latch.Step(d.freeFallLatched, d'.freeFallLatched, result.freeFall,
                                r.sample.magnitude > r.freeFallThreshold + REARM_DEVIATION_MG))
  {
  }

  /** Between two reported shocks lies a sample within 300 mg of one g, whatever
      the thresholds were meanwhile. */
  lemma ShockRearms(d: Detector, trace: seq<Reading>, i: nat, j: nat) returns (k: nat)
    requires i < j < |trace| && ResultAt(d, trace, i).shock && ResultAt(d, trace, j).shock
    ensures i < k < j && Excursion(trace[k].sample) < REARM_DEVIATION_MG
  {
    ShockStepsChain(d, trace);
    assert Latch.Obeys(ShockSteps(d, trace)[i]);
    k := Latch.RearmedBetween(ShockSteps(d, trace), i, j);
  }

  /** Between two reported free falls lies a sample more than 300 mg above the
      free-fall threshold. */
  lemma FreeFallRearms(d: Detector, trace: seq<Reading>, i: nat, j: nat) returns (k: nat)
    requires i < j < |trace| && ResultAt(d, trace, i).freeFall && ResultAt(d, trace, j).freeFall
    ensures i < k < j && trace[k].sample.magnitude > trace[k].freeFallThreshold + REARM_DEVIATION_MG
  {
    FallStepsChain(d, trace);
    assert Latch.Obeys(FallSteps(d, trace)[i]);
    k := Latch.RearmedBetween(FallSteps(d, trace), i, j);
  }

  // ---- What is reported, by history alone ----

  /** A sample that counts as an impact, and how hard it was, at most 0xffff. */
  predicate Impact(r: Reading) {
    r.sample.magnitude > 1000 + r.shockThreshold || r.sample.magnitude + r.shockThreshold < 1000
  }

  function Hardness(r: Reading): nat {
    var off := if r.sample.magnitude > 1000 then r.sample.magnitude - 1000 else 1000 - r.sample.magnitude;
    if off > 0xffff then 0xffff else off
  }

  /** Within 300 mg of one g. */
  predicate Calm(r: Reading) {
    700 < r.sample.magnitude < 1300
  }

  predicate Falling(r: Reading) {
    r.sample.magnitude < r.freeFallThreshold
  }

  predicate Landed(r: Reading) {
    r.sample.magnitude > r.freeFallThreshold + 300
  }

  /** A reading before the end of the trace that nothing has made good since. */
  ghost predicate Standing(trace: seq<Reading>, bad: Reading -> bool, good: Reading -> bool) {
    exists j :: 0 <= j < |trace| && bad(trace[j]) && forall m :: j < m < |trace| ==> !good(trace[m])
  }

  lemma StandingStep(trace: seq<Reading>, bad: Reading -> bool, good: Reading -> bool)
    requires trace != []
    ensures var n := |trace| - 1;
      Standing(trace, bad, good) <==> bad(trace[n]) || (Standing(trace[..n], bad, good) && !good(trace[n]))
  {
    var n := |trace| - 1;
    var before := trace[..n];
    if bad(trace[n]) {
      assert Standing(trace, bad, good);
    } else if Standing(before, bad, good) && !good(trace[n]) {
      var j :| 0 <= j < n && bad(before[j]) && forall m :: j < m < n ==> !good(before[m]);
      assert bad(trace[j]);
      assert forall m :: j < m < |trace| ==> !good(trace[m]) by {
        assert forall m :: j < m < n ==> trace[m] == before[m];
      }
    } else if Standing(trace, bad, good) {
      var j :| 0 <= j < |trace| && bad(trace[j]) && forall m :: j < m < |trace| ==> !good(trace[m]);
      EarlierStanding(trace, j, bad, good);
    }
  }

  lemma EarlierStanding(trace: seq<Reading>, j: nat, bad: Reading -> bool, good: Reading -> bool)
    requires j < |trace| - 1 && bad(trace[j]) && forall m :: j < m < |trace| ==> !good(trace[m])
    ensures Standing(trace[..|trace| - 1], bad, good)
  {
    var before := trace[..|trace| - 1];
    assert bad(before[j]);
    assert forall m :: j < m < |before| ==> before[m] == trace[m];
  }

  lemma {:induction false} LatchesByHistory(trace: seq<Reading>)
    ensures After(Detector(false, false, 0), trace).shockLatched <==> Standing(trace, Impact, Calm)
    ensures After(Detector(false, false, 0), trace).freeFallLatched <==> Standing(trace, Falling, Landed)
  {
    if trace != [] {
      LatchesByHistory(trace[..|trace| - 1]);
      StandingStep(trace, Impact, Calm);
      StandingStep(trace, Falling, Landed);
      hide Standing;
    }
  }

  /** Every bad reading before the k-th has been made good before it. */
  ghost predicate Rearmed(trace: seq<Reading>, k: nat, bad: Reading -> bool, good: Reading -> bool)
    requires k <= |trace|
  {
    forall j :: 0 <= j < k && bad(trace[j]) ==> exists m :: j < m < k && good(trace[m])
  }

  /** Exactly which impacts and falls are reported, over any trace from a fresh
      detector and with the thresholds changing at will: a shock at sample k if and
      only if that sample is an impact and every impact before it was followed,
      before k, by a sample within 300 mg of one g; a free fall if and only if the
      sample is falling and every fall before it was followed by a sample more than
      300 mg above the threshold. A reported shock is as hard as its sample. */
  lemma ReportedIff(trace: seq<Reading>, k: nat)
    requires k < |trace|
    ensures var result := ResultAt(Detector(false, false, 0), trace, k);
      && (result.shock <==> Impact(trace[k]) && Rearmed(trace, k, Impact, Calm))
      && (result.freeFall <==> Falling(trace[k]) && Rearmed(trace, k, Falling, Landed))
      && (result.shock ==> result.peak == Hardness(trace[k]))
  {
    LatchesByHistory(trace[..k]);
    StandingIn(trace, k, Impact, Calm);
    StandingIn(trace, k, Falling, Landed);
    hide Standing;
  }

  lemma StandingIn(trace: seq<Reading>, k: nat, bad: Reading -> bool, good: Reading -> bool)
    requires k <= |trace|
    ensures Standing(trace[..k], bad, good) <==> !Rearmed(trace, k, bad, good)
  {
    var before := trace[..k];
    assert forall m :: 0 <= m < k ==> before[m] == trace[m];
    if Standing(before, bad, good) {
      var j :| 0 <= j < k && bad(before[j]) && forall m :: j < m < k ==> !good(before[m]);
      assert bad(trace[j]);
    } else {
      forall j | 0 <= j < k && bad(trace[j]) ensures exists m :: j < m < k && good(trace[m]) {
        assert bad(before[j]);
        var m :| j < m < k && good(before[m]);
        assert good(trace[m]);
      }
    }
  }

  /** From a fresh detector the peak is the hardest impact of the trace, reported
      or not: none was harder, and it is that of one of them, or 0 if there is none. */
  lemma {:induction false} PeakIsHardest(trace: seq<Reading>)
    ensures var peak := After(Detector(false, false, 0), trace).peak;
      && (forall k :: 0 <= k < |trace| && Impact(trace[k]) ==> Hardness(trace[k]) <= peak)
      && (peak > 0 ==> exists k :: 0 <= k < |trace| && Impact(trace[k]) && Hardness(trace[k]) == peak)
  {
    if trace != [] {
      var n := |trace| - 1;
      var before := After(Detector(false, false, 0), trace[..n]).peak;
      PeakIsHardest(trace[..n]);
      forall k | 0 <= k < n ensures trace[..n][k] == trace[k] {
      }
      if before > 0 {
        var k :| 0 <= k < n && Impact(trace[..n][k]) && Hardness(trace[..n][k]) == before;
        assert Impact(trace[k]) && Hardness(trace[k]) == before;
      }
    }
  }
}
