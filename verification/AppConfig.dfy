/** The running configuration: validated before it is applied, and applied to the
    motion manager in the same step. */
module AppConfig {
  import opened SmartTag
  import opened MotionManager

  const DEFAULTS: Config := Config(60, 30, 150, 4000, 300, 4000, -1000, 8000, 2400, 50, 300, 100, 1800, 120, 0, 5000,
                                   0, 1, 1)

  /** app_config_validate(). */
  predicate Validated(c: Config) {
    && 1 <= c.samplingInterval <= 3600
    && 1 <= c.motionTimeout <= 3600
    && 20 <= c.motionThreshold <= 4000
    && 500 <= c.shockThreshold <= 16000
    && c.freeFallThreshold <= 900
    && c.tempLow < c.tempHigh
    && c.humidityHigh <= 10000
    && 1800 <= c.batteryLow <= 3300
    && 60 <= c.maxInterval <= 43200
    && 10 <= c.serviceWindow <= 3600
    && c.operatingMode <= 2
    && c.ledEnabled <= 1 && c.historyEnabled <= 1
  }

  datatype Range = Range(value: int, low: int, high: int)

  /** The settings with a range of their own. */
  function Ranges(c: Config): seq<Range> {
    [Range(c.samplingInterval, 1, 3600), Range(c.motionTimeout, 1, 3600), Range(c.motionThreshold, 20, 4000),
     Range(c.shockThreshold, 500, 16000), Range(c.freeFallThreshold, 0, 900), Range(c.humidityHigh, 0, 10000),
     Range(c.batteryLow, 1800, 3300), Range(c.maxInterval, 60, 43200), Range(c.serviceWindow, 10, 3600),
     Range(c.operatingMode, 0, 2), Range(c.ledEnabled, 0, 1), Range(c.historyEnabled, 0, 1)]
  }

  /** A configuration is accepted if and only if each of these is in its range and
      the temperature window is not empty; the deltas and the gas floor are free. */
  lemma ValidatedExactly(c: Config)
    ensures Validated(c) <==>
      && c.tempLow < c.tempHigh
      && forall k :: 0 <= k < |Ranges(c)| ==> Ranges(c)[k].low <= Ranges(c)[k].value <= Ranges(c)[k].high
  {
    var ranges := Ranges(c);
    if c.tempLow < c.tempHigh && forall k :: 0 <= k < |ranges| ==> ranges[k].low <= ranges[k].value <= ranges[k].high {
      assert ranges[0].low <= ranges[0].value <= ranges[0].high && ranges[1].low <= ranges[1].value <= ranges[1].high;
      assert ranges[2].low <= ranges[2].value <= ranges[2].high && ranges[3].low <= ranges[3].value <= ranges[3].high;
      assert ranges[4].low <= ranges[4].value <= ranges[4].high && ranges[5].low <= ranges[5].value <= ranges[5].high;
      assert ranges[6].low <= ranges[6].value <= ranges[6].high && ranges[7].low <= ranges[7].value <= ranges[7].high;
      assert ranges[8].low <= ranges[8].value <= ranges[8].high && ranges[9].low <= ranges[9].value <= ranges[9].high;
      assert ranges[10].low <= ranges[10].value <= ranges[10].high
          && ranges[11].low <= ranges[11].value <= ranges[11].high;
    }
  }

  /** What a tag without usable settings runs with is itself acceptable. */
  lemma DefaultsAreValid()
    ensures Validated(DEFAULTS)
  {
  }

  function ModeDivider(mode: nat): nat {
    if mode == 2 then 4 else if mode == 1 then 2 else 1
  }

  class AppConfig {
    const motion: MotionManager
    var config: Config

    /** Every configuration in force is valid, and the motion manager uses it. */
    ghost predicate Valid()
      reads this, motion
    {
      Validated(config) && motion.config == config
    }

    /** Starts from what was stored, or from the defaults if that is out of range. */
    constructor (stored: Config)
      ensures Valid() && config == if Validated(stored) then stored else DEFAULTS
      ensures fresh(motion) && motion.State() == INITIAL
    {
      var start := if Validated(stored) then stored else DEFAULTS;
      config := start;
      motion := new MotionManager(start);
    }

    /** Applies a configuration, or changes nothing if it is out of range. */
    method Set(wanted: Config) returns (ok: bool)
      requires Valid()
      modifies this, motion`config
      ensures Valid() && ok == Validated(wanted)
      ensures config == if ok then wanted else old(config)
      ensures motion.State() == old(motion.State())
    {
      if !Validated(wanted) {
        return false;
      }
      config := wanted;
      motion.UpdateConfig(wanted);
      return true;
    }

    method SetMode(mode: nat) returns (ok: bool)
      requires Valid()
      modifies this, motion`config
      ensures Valid() && (ok <==> mode <= 2)
      ensures config == if ok then old(config).(operatingMode := mode) else old(config)
    {
      ok := Set(config.(operatingMode := mode));
    }

    method SetSamplingInterval(seconds: nat) returns (ok: bool)
      requires Valid()
      modifies this, motion`config
      ensures Valid() && (ok <==> 1 <= seconds <= 3600)
      ensures config == if ok then old(config).(samplingInterval := seconds) else old(config)
    {
      ok := Set(config.(samplingInterval := seconds));
    }

    /** The interval in the current mode - 0 for environment, 1 for asset, 2 for
        shipping - and never less than a second. */
    method EffectiveInterval() returns (seconds: nat)
      requires Valid()
      ensures 1 <= seconds <= 3600
      ensures config.operatingMode == 0 ==> seconds == config.samplingInterval
      ensures config.operatingMode == 1 ==>
        config.samplingInterval < 2 * seconds + 2 && (seconds > 1 ==> 2 * seconds <= config.samplingInterval)
      ensures config.operatingMode == 2 ==>
        config.samplingInterval < 4 * seconds + 4 && (seconds > 1 ==> 4 * seconds <= config.samplingInterval)
    {
      var interval := config.samplingInterval / ModeDivider(config.operatingMode);
      seconds := if interval > 1 then interval else 1;
    }
  }
}
