/** The STATIONARY <-> MOVING machine, the orientation tracker and the tamper
    inference of src/motion/motion_manager.c. */
module MotionManager {
  import opened SmartTag
  import opened MotionClassifier
  import opened ShockDetector

  const TAMPER_SETTLED_S: nat := 300

  datatype Motion = Motion(
    moving: bool, orientation: Orientation, tamper: bool,
    lastActive: nat, startedAt: nat, stationarySince: nat, total: nat, detector: Detector)
  {
    /** Every time is a uint32_t. */
    predicate Fits() {
      lastActive < UINT32_LIMIT && startedAt < UINT32_LIMIT && stationarySince < UINT32_LIMIT && total < UINT32_LIMIT
    }
  }

  datatype MotionResult = MotionResult(
    start: bool, stop: bool, shock: bool, freeFall: bool, turned: bool, tamper: bool,
    shockMg: nat, orientation: Orientation, moving: bool, duration: nat)

  /** What the machine writes back into the sample, for the history record. */
  datatype Marks = Marks(motion: bool, shock: bool, freeFall: bool, orientation: Orientation)

  function Mark(before: Marks, s: Sample, r: MotionResult): Marks {
    if Accel !in s.valid then before
    else Marks(r.moving, before.shock || r.shock, before.freeFall || r.freeFall, r.orientation)
  }

  const INITIAL: Motion := Motion(false, Unknown, false, 0, 0, 0, 0, Detector(false, false, 0))

  /** What one sample does. */
  function Process(m: Motion, c: Config, s: Sample): (result: (Motion, MotionResult))
    requires m.Fits() && s.timestamp < UINT32_LIMIT
    ensures result.0.Fits()
  {
    if Accel !in s.valid then
      (m, MotionResult(false, false, false, false, false, false, 0, m.orientation, m.moving, 0))
    else
      var now := s.timestamp;
      var settled := !m.moving && Sub32(now, m.stationarySince) >= TAMPER_SETTLED_S;
      var (detector, shock) := Detect(m.detector, s, c.shockThreshold, c.freeFallThreshold);
      var active := IsActive(s, c.motionThreshold);
      var start := active && !m.moving;
      var stop := !active && m.moving && Sub32(now, m.lastActive) >= c.motionTimeout;
      var duration := Sub32(m.lastActive, m.startedAt);
      var facing := OrientationOf(s);
      var turned := facing != Unknown && facing != m.orientation && m.orientation != Unknown;
      var tampered := turned && settled && shock.shock && !m.tamper;
      var m' := Motion(
        active || (m.moving && !stop),
        if facing != Unknown then facing else m.orientation,
        m.tamper || tampered,
        if active then now else m.lastActive,
        if start then now else m.startedAt,
        if stop then now else m.stationarySince,
        if stop then Add32(m.total, duration) else m.total,
        detector);
      (m', MotionResult(start, stop, shock.shock, shock.freeFall, turned, tampered,
                        if shock.shock then shock.peak else 0, m'.orientation, m'.moving, if stop then duration else 0))
  }

  class MotionManager {
    const detector: ShockDetector
    var config: Config
    var moving: bool
    var orientation: Orientation
    var tamper: bool
    var lastActiveTime: nat
    var motionStartedTime: nat
    var stationarySince: nat
    var totalMovement: nat

    ghost function State(): Motion
      reads this, detector
    {
      Motion(moving, orientation, tamper, lastActiveTime, motionStartedTime, stationarySince, totalMovement,
             detector.State())
    }

    constructor (config: Config)
      ensures State() == INITIAL && this.config == config && fresh(detector)
    {
      this.config := config;
      detector := new ShockDetector();
      moving, orientation, tamper := false, Unknown, false;
      lastActiveTime, motionStartedTime, stationarySince, totalMovement := 0, 0, 0, 0;
    }

    method UpdateConfig(config: Config)
      modifies this`config
      ensures this.config == config && State() == old(State())
    {
      this.config := config;
    }

    /** The motion state, with its quiet-time hysteresis. */
    method UpdateMovement(now: nat, active: bool) returns (start: bool, stop: bool, duration: nat)
      requires State().Fits() && now < UINT32_LIMIT
      modifies this`moving, this`lastActiveTime, this`motionStartedTime, this`stationarySince, this`totalMovement
      ensures start == (active && !old(moving))
      ensures stop == (!active && old(moving) && Sub32(now, old(lastActiveTime)) >= config.motionTimeout)
      ensures duration == if stop then Sub32(old(lastActiveTime), old(motionStartedTime)) else 0
      ensures moving == (active || (old(moving) && !stop))
      ensures lastActiveTime == if active then now else old(lastActiveTime)
      ensures motionStartedTime == if start then now else old(motionStartedTime)
      ensures stationarySince == if stop then now else old(stationarySince)
      ensures totalMovement == if stop then Add32(old(totalMovement), duration) else old(totalMovement)
    {
      start, stop, duration := false, false, 0;
      if active {
        lastActiveTime := now;
        if !moving {
          moving := true;
          motionStartedTime := now;
          start := true;
        }
      } else if moving && Sub32(now, lastActiveTime) >= config.motionTimeout {
        duration := Sub32(lastActiveTime, motionStartedTime);
        moving := false;
        stationarySince := now;
        totalMovement := Add32(totalMovement, duration);
        stop := true;
      }
    }

    /** The orientation, and the tamper inference if it has changed. */
    method UpdateOrientation(facing: Orientation, provoked: bool) returns (turned: bool, tampered: bool)
      modifies this`orientation, this`tamper
      ensures turned == (facing != Unknown && facing != old(orientation) && old(orientation) != Unknown)
      ensures tampered == (turned && provoked && !old(tamper))
      ensures orientation == if facing != Unknown then facing else old(orientation)
      ensures tamper == (old(tamper) || tampered)
    {
      turned, tampered := false, false;
      if facing != Unknown && facing != orientation {
        var first := orientation == Unknown;
        orientation := facing;
        if !first {
          turned := true;
          if provoked && !tamper {
            tamper := true;
            tampered := true;
          }
        }
      }
    }

    /** Runs one sample through the machine. */
    method ProcessSample(s: Sample, before: Marks) returns (result: MotionResult, marks: Marks)
      requires State().Fits() && s.timestamp < UINT32_LIMIT
      modifies this, detector
      ensures config == old(config)
      ensures (State(), result) == Process(old(State()), config, s)
      ensures marks == Mark(before, s, result)
    {
      hide Detect, IsActive, OrientationOf, Add32;
      marks := before;
      result := MotionResult(false, false, false, false, false, false, 0, orientation, moving, 0);
      if Accel !in s.valid {
        return;
      }
      var now := s.timestamp;
      var wasSettled := !moving && Sub32(now, stationarySince) >= TAMPER_SETTLED_S;
      var shock := detector.Process(s, config.shockThreshold, config.freeFallThreshold);
      var start, stop, duration := UpdateMovement(now, IsActive(s, config.motionThreshold));
      var turned, tampered := UpdateOrientation(OrientationOf(s), wasSettled && shock.shock);
      result := MotionResult(start, stop, shock.shock, shock.freeFall, turned, tampered,
                             if shock.shock then shock.peak else 0, orientation, moving, duration);
      marks := Marks(moving, marks.shock || shock.shock, marks.freeFall || shock.freeFall, orientation);
    }

    method ClearTamper()
      modifies this`tamper
      ensures State() == old(State()).(tamper := false)
    {
      tamper := false;
    }
  }
}
