/** Report-on-change: which readings go to the Zigbee attributes, and what a
    gateway that reads the attributes therefore knows of the tag. */
module ZigbeeReporting {
  import opened SmartTag

  const BATTERY_DELTA_PERCENT: nat := 1

  datatype Group = TemperatureGroup | HumidityGroup | PressureGroup | BatteryGroup | TagGroup

  const EVERYTHING: set<Group> := {TemperatureGroup, HumidityGroup, PressureGroup, BatteryGroup, TagGroup}

  /** The status fields of which any change, however small, is reported. */
  datatype Tag = Tag(moving: bool, orientation: Orientation, tamper: bool, flags: set<Alarm>, shockCount: nat,
                     freeFallCount: nat)

  datatype Baseline = Baseline(
    valid: bool, lastReport: nat, temperature: int, humidity: nat, pressure: int, batteryPercent: nat, tag: Tag,
        gas: nat)

  /** The attributes as a gateway reads them, in the units of the cluster library. */
  datatype Attributes = Attributes(temperature: int, humidity: nat, pressureKPa: int, voltage: nat, remaining: nat,
                                   tag: Tag, gas: nat)

  /** C division, towards zero, and a cast to int16_t. */
  function KiloPascal(pressure: int): int {
    var q := if pressure >= 0 then pressure / 1000 else -((-pressure) / 1000);
    var w := q % 0x1_0000;
    if w > INT16_MAX then w - 0x1_0000 else w
  }

  function HalfPercent(percent: nat): nat {
    if percent * 2 < 200 then percent * 2 else 200
  }

  function Distance(a: nat, b: nat): nat {
    if a > b then a - b else b - a
  }

  predicate IntervalElapsed(b: Baseline, s: Sample, c: Config)
    requires b.lastReport < UINT32_LIMIT
  {
    Sub32(s.timestamp, b.lastReport) >= c.maxInterval
  }

  /** Which groups a sample should push. */
  function Evaluate(b: Baseline, s: Sample, tag: Tag, c: Config): (report: set<Group>)
    requires b.lastReport < UINT32_LIMIT
  {
    if !b.valid || IntervalElapsed(b, s, c) then EVERYTHING
    else
      (if TempRh in s.valid && Abs(s.temperature - b.temperature) >= c.tempDelta then {TemperatureGroup} else {})
      + (if TempRh in s.valid && Abs(s.humidity - b.humidity) >= c.humidityDelta then {HumidityGroup} else {})
      + (if Pressure in s.valid && Abs(s.pressure - b.pressure) >= c.pressureDelta then {PressureGroup} else {})
      + (if Battery in s.valid && Abs(s.batteryPercent - b.batteryPercent) >= BATTERY_DELTA_PERCENT then {BatteryGroup}
         else {})
      + (if tag != b.tag || (Gas in s.valid && c.gasDelta != 0 && Distance(s.gasOhm, b.gas) >= c.gasDelta)
         then {TagGroup} else {})
  }

  /** What was sent becomes the baseline of the next comparison. */
  function Commit(b: Baseline, s: Sample, tag: Tag, report: set<Group>): Baseline {
    if report == {} then b
    else Baseline(true, s.timestamp,
                  if TemperatureGroup in report then s.temperature else b.temperature,
                  if HumidityGroup in report then s.humidity else b.humidity,
                  if PressureGroup in report then s.pressure else b.pressure,
                  if BatteryGroup in report then s.batteryPercent else b.batteryPercent,
                  if TagGroup in report then tag else b.tag,
                  if TagGroup in report && Gas in s.valid then s.gasOhm else b.gas)
  }

  /** What the cluster layer writes: only readings that are valid. */
  function Update(a: Attributes, s: Sample, tag: Tag, report: set<Group>): Attributes {
    Attributes(if TemperatureGroup in report && TempRh in s.valid then s.temperature else a.temperature,
               if HumidityGroup in report && TempRh in s.valid then s.humidity else a.humidity,
               if PressureGroup in report && Pressure in s.valid then KiloPascal(s.pressure) else a.pressureKPa,
               if BatteryGroup in report && Battery in s.valid then s.batteryMv / 100 % 0x100 else a.voltage,
               if BatteryGroup in report && Battery in s.valid then HalfPercent(s.batteryPercent) else a.remaining,
               if TagGroup in report then tag else a.tag,
               if TagGroup in report && Gas in s.valid then s.gasOhm else a.gas)
  }

  function Publish(b: Baseline, a: Attributes, s: Sample, tag: Tag, c: Config): (Baseline, Attributes)
    requires b.lastReport < UINT32_LIMIT
  {
    var report := Evaluate(b, s, tag, c);
    (Commit(b, s, tag, report), Update(a, s, tag, report))
  }

  const NO_TAG: Tag := Tag(false, Unknown, false, {}, 0, 0)

  class Reporter {
    var valid: bool
    var lastReport: nat
    var temperature: int
    var humidity: nat
    var pressure: int
    var batteryPercent: nat
    var tag: Tag
    var gas: nat
    var attributes: Attributes

    ghost function Base(): Baseline
      reads this
    {
      Baseline(valid, lastReport, temperature, humidity, pressure, batteryPercent, tag, gas)
    }

    constructor (attributes: Attributes)
      ensures Base() == Baseline(false, 0, 0, 0, 0, 0, NO_TAG, 0) && this.attributes == attributes
    {
      valid, lastReport, temperature, humidity, pressure, batteryPercent, tag, gas := false, 0, 0, 0, 0, 0, NO_TAG, 0;
      this.attributes := attributes;
    }

    /** Forgets that anything was ever sent. */
    method Force()
      modifies this`valid
      ensures Base() == old(Base()).(valid := false)
    {
      valid := false;
    }

    /** Decides what in the sample is worth reporting. */
    method EvaluateSample(s: Sample, status: Tag, c: Config) returns (report: set<Group>)
      requires lastReport < UINT32_LIMIT
      ensures report == Evaluate(Base(), s, status, c)
    {
      hide Abs, Distance, Sub32;
      report := {};
      if !valid {
        return EVERYTHING;
      }
      var intervalElapsed := Sub32(s.timestamp, lastReport) >= c.maxInterval;
      if TempRh in s.valid {
        if Abs(s.temperature - temperature) >= c.tempDelta {
          report := report + {TemperatureGroup};
        }
        if Abs(s.humidity - humidity) >= c.humidityDelta {
          report := report + {HumidityGroup};
        }
      }
      if Pressure in s.valid && Abs(s.pressure - pressure) >= c.pressureDelta {
        report := report + {PressureGroup};
      }
      if Battery in s.valid && Abs(s.batteryPercent - batteryPercent) >= BATTERY_DELTA_PERCENT {
        report := report + {BatteryGroup};
      }
      if Gas in s.valid && c.gasDelta != 0 && Distance(s.gasOhm, gas) >= c.gasDelta {
        report := report + {TagGroup};
      }
      if status != tag {
        report := report + {TagGroup};
      }
      if intervalElapsed {
        report := report + EVERYTHING;
      }
    }

    /** Records what was sent. */
    method CommitReport(s: Sample, status: Tag, reported: set<Group>)
      modifies this
      ensures Base() == Commit(old(Base()), s, status, reported) && attributes == old(attributes)
    {
      if reported == {} {
        return;
      }
      if TemperatureGroup in reported {
        temperature := s.temperature;
      }
      if HumidityGroup in reported {
        humidity := s.humidity;
      }
      if PressureGroup in reported {
        pressure := s.pressure;
      }
      if BatteryGroup in reported {
        batteryPercent := s.batteryPercent;
      }
      if TagGroup in reported {
        tag := status;
        if Gas in s.valid {
          gas := s.gasOhm;
        }
      }
      lastReport := s.timestamp;
      valid := true;
    }

    /** zigbee_clusters_update(): pushes the attributes one by one. */
    method UpdateClusters(s: Sample, status: Tag, report: set<Group>)
      modifies this`attributes
      ensures attributes == Update(old(attributes), s, status, report)
    {
      if TemperatureGroup in report && TempRh in s.valid {
        attributes := attributes.(temperature := s.temperature);
      }
      if HumidityGroup in report && TempRh in s.valid {
        attributes := attributes.(humidity := s.humidity);
      }
      if PressureGroup in report && Pressure in s.valid {
        attributes := attributes.(pressureKPa := KiloPascal(s.pressure));
      }
      if BatteryGroup in report && Battery in s.valid {
        attributes := attributes.(voltage := s.batteryMv / 100 % 0x100);
        attributes := attributes.(remaining := HalfPercent(s.batteryPercent));
      }
      if TagGroup !in report {
        return;
      }
      attributes := attributes.(tag := status);
      if Gas in s.valid {
        attributes := attributes.(gas := s.gasOhm);
      }
    }

    /** One publication on a joined tag: evaluate, and if there is anything, update and commit. */
    method PublishSample(joined: bool, s: Sample, status: Tag, c: Config)
      requires lastReport < UINT32_LIMIT
      modifies this
      ensures (Base(), attributes) == if joined then Publish(old(Base()), old(attributes), s, status, c)
          else (old(Base()), old(attributes))
    {
      if !joined {
        return;
      }
      var report := EvaluateSample(s, status, c);
      if report == {} {
        return;
      }
      UpdateClusters(s, status, report);
      CommitReport(s, status, report);
    }
  }

  // ---- The gateway's view ----

  /** The attributes say what the baseline says. */
  ghost predicate Agrees(b: Baseline, a: Attributes) {
    && a.temperature == b.temperature && a.humidity == b.humidity && a.pressureKPa == KiloPascal(b.pressure)
    && a.remaining == HalfPercent(b.batteryPercent) && a.tag == b.tag
  }

  function AtLeastOne(delta: nat): nat {
    if delta == 0 then 1 else delta
  }

  /** The baseline is close to what the tag measures, and was sent recently. */
  ghost predicate Close(b: Baseline, s: Sample, tag: Tag, c: Config)
    requires b.lastReport < UINT32_LIMIT
  {
    && b.valid
    && Abs(s.temperature - b.temperature) < AtLeastOne(c.tempDelta)
    && Abs(s.humidity - b.humidity) < AtLeastOne(c.humidityDelta)
    && Abs(s.pressure - b.pressure) < AtLeastOne(c.pressureDelta)
    && s.batteryPercent == b.batteryPercent
    && tag == b.tag
    && (Gas in s.valid && c.gasDelta != 0 ==> Distance(s.gasOhm, b.gas) < c.gasDelta)
    && Sub32(s.timestamp, b.lastReport) < c.maxInterval
  }

  ghost predicate Complete(s: Sample) {
    TempRh in s.valid && Pressure in s.valid && Battery in s.valid
  }

  ghost predicate Consistent(b: Baseline, a: Attributes) {
    b.lastReport < UINT32_LIMIT && a.gas == b.gas && (b.valid ==> Agrees(b, a))
  }

  lemma PublishTracks(b: Baseline, a: Attributes, s: Sample, tag: Tag, c: Config)
    requires Consistent(b, a) && Complete(s) && s.timestamp < UINT32_LIMIT && c.maxInterval >= 1
    ensures var (b', a') := Publish(b, a, s, tag, c);
      Consistent(b', a') && Agrees(b', a') && Close(b', s, tag, c)
  {
    hide KiloPascal, HalfPercent;
  }

  datatype Step = Published(sample: Sample, tag: Tag, config: Config) | Forced

  function Take(b: Baseline, a: Attributes, step: Step): (Baseline, Attributes)
    requires b.lastReport < UINT32_LIMIT
  {
    match step
    case Published(s, tag, c) => Publish(b, a, s, tag, c)
    case Forced => (b.(valid := false), a)
  }

  ghost predicate Valid(steps: seq<Step>) {
    forall k :: 0 <= k < |steps| && steps[k].Published? ==>
      Complete(steps[k].sample) && steps[k].sample.timestamp < UINT32_LIMIT && steps[k].config.maxInterval >= 1
  }

  function TakeAll(b: Baseline, a: Attributes, steps: seq<Step>): (r: (Baseline, Attributes))
    requires b.lastReport < UINT32_LIMIT
    requires forall k :: 0 <= k < |steps| && steps[k].Published? ==> steps[k].sample.timestamp < UINT32_LIMIT
    ensures r.0.lastReport < UINT32_LIMIT
  {
    if steps == [] then (b, a)
    else
      var before := TakeAll(b, a, steps[..|steps| - 1]);
      Take(before.0, before.1, steps[|steps| - 1])
  }

  /** The gateway tracks the tag: over any sequence of publications and forced
      reports, with the configuration changing at will, after each publication the
      attributes agree with the baseline, and the baseline is within the deltas of
      the sample, equal to it where it must be, and less than the interval old. */
  lemma {:induction false} GatewayTracks(b: Baseline, a: Attributes, steps: seq<Step>)
    requires Consistent(b, a) && Valid(steps)
    ensures var (b', a') := TakeAll(b, a, steps);
      && Consistent(b', a')
      && (steps != [] && steps[|steps| - 1].Published? ==>
            var last := steps[|steps| - 1];
            Agrees(b', a') && Close(b', last.sample, last.tag, last.config))
  {
    if steps != [] {
      var n := |steps| - 1;
      GatewayTracks(b, a, steps[..n]);
      var (b0, a0) := TakeAll(b, a, steps[..n]);
      if steps[n].Published? {
        PublishTracks(b0, a0, steps[n].sample, steps[n].tag, steps[n].config);
      }
    }
  }

  // ---- Units ----

  /** The pressure attribute is the reading in kPa, rounded towards zero, if and only
      if that fits 16 bits. */
  lemma PressureUnits(pressure: int)
    ensures var shown := KiloPascal(pressure);
      && -0x8000 <= shown < 0x8000
      && ((if pressure >= 0 then 1000 * shown <= pressure < 1000 * shown + 1000
           else 1000 * shown - 1000 < pressure <= 1000 * shown)
          <==> -32_769_000 < pressure < 32_768_000)
  {
  }

  /** The battery attribute counts half percents, at most 200. */
  lemma BatteryUnits(percent: nat)
    ensures HalfPercent(percent) == if percent >= 100 then 200 else 2 * percent
  {
  }

  /** What is written for each group that is reported with a valid reading: hundredths
      of a degree and of a percent as they are, whole kPa, half percents, steps of
      100 mV as far as they fit a byte, the tag fields; nothing else changes. */
  lemma UpdateExactly(a: Attributes, s: Sample, tag: Tag, report: set<Group>)
    ensures var a' := Update(a, s, tag, report);
      && a'.temperature == (if TemperatureGroup in report && TempRh in s.valid then s.temperature else a.temperature)
      && a'.humidity == (if HumidityGroup in report && TempRh in s.valid then s.humidity else a.humidity)
      && (if PressureGroup in report && Pressure in s.valid then a'.pressureKPa == KiloPascal(s.pressure)
          else a'.pressureKPa == a.pressureKPa)
      && (if BatteryGroup in report && Battery in s.valid then
            && a'.remaining == (if s.batteryPercent >= 100 then 200 else 2 * s.batteryPercent)
            && a'.voltage < 256
            && (100 * a'.voltage <= s.batteryMv < 100 * a'.voltage + 100 <==> s.batteryMv < 25_600)
          else a'.remaining == a.remaining && a'.voltage == a.voltage)
      && a'.tag == (if TagGroup in report then tag else a.tag)
      && a'.gas == (if TagGroup in report && Gas in s.valid then s.gasOhm else a.gas)
  {
    BatteryUnits(s.batteryPercent);
    hide KiloPascal, HalfPercent;
  }

  /** Nothing is sent without need: while the interval has not elapsed and nothing
      has moved by its delta, a publication changes neither side. */
  lemma QuietWhenNothingMoved(b: Baseline, a: Attributes, s: Sample, tag: Tag, c: Config)
    requires b.lastReport < UINT32_LIMIT && b.valid && !IntervalElapsed(b, s, c) && tag == b.tag
    requires TempRh in s.valid ==>
      Abs(s.temperature - b.temperature) < c.tempDelta && Abs(s.humidity - b.humidity) < c.humidityDelta
    requires Pressure in s.valid ==> Abs(s.pressure - b.pressure) < c.pressureDelta
    requires Battery in s.valid ==> s.batteryPercent == b.batteryPercent
    requires Gas in s.valid && c.gasDelta != 0 ==> Distance(s.gasOhm, b.gas) < c.gasDelta
    ensures Publish(b, a, s, tag, c) == (b, a)
  {
  }

  /** With readings missing, attributes and baseline agree after a publication if
      and only if no full report was due - because of the interval, or as the first
      one after boot, joining or a forced report - or the missing readings happen to
      equal the attributes: a full report takes them into the baseline, unsent. */
  lemma AgreesUnlessMissingReadingIsTaken(b: Baseline, a: Attributes, s: Sample, tag: Tag, c: Config)
    requires Consistent(b, a) && s.timestamp < UINT32_LIMIT
    ensures var (b', a') := Publish(b, a, s, tag, c);
      Agrees(b', a') <==>
        (b.valid && !IntervalElapsed(b, s, c))
        || ((TempRh in s.valid || (s.temperature == a.temperature && s.humidity == a.humidity))
            && (Pressure in s.valid || KiloPascal(s.pressure) == a.pressureKPa)
            && (Battery in s.valid || HalfPercent(s.batteryPercent) == a.remaining))
  {
    hide KiloPascal, HalfPercent;
  }

  /** For instance a heartbeat on a sample whose climate sensor failed, reading 0. */
  lemma HeartbeatTakesMissingReading(b: Baseline, a: Attributes, s: Sample, tag: Tag, c: Config)
    requires Consistent(b, a) && b.valid && s.timestamp < UINT32_LIMIT && IntervalElapsed(b, s, c)
    requires TempRh !in s.valid && s.temperature == 0 && b.temperature == 2100
    ensures var (b', a') := Publish(b, a, s, tag, c); a'.temperature == 2100 && b'.temperature == 0
  {
  }
}
