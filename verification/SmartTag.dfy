/** The values that the modules of the tag share. */
module SmartTag {

  const ONE_G_MG: int := 1000
  const UINT16_MAX: int := 0xffff
  const UINT32_LIMIT: int := 0x1_0000_0000
  const INT16_MAX: int := 0x7fff
  const BATTERY_HYSTERESIS_MV: int := 100

  datatype Option<T> = None | Some(value: T)

  /** The parts of a sample that can be marked valid. */
  datatype Sensor = TempRh | Pressure | Accel | Battery | Gas | Gyro

  datatype Orientation = Unknown | XUp | XDown | YUp | YDown | ZUp | ZDown

  datatype Alarm = TempHighAlarm | TempLowAlarm | HumidityHighAlarm | ShockAlarm | FreeFallAlarm
                 | TamperAlarm | SensorFaultAlarm | BatteryLowAlarm | GasLowAlarm

  datatype EventType = MotionStart | MotionStop | Shock | FreeFall | OrientationChange | Tamper
                     | TempHigh | TempLow | HumidityHigh | BatteryLow | SensorFault | GasLow

  datatype Severity = InfoSeverity | WarningSeverity | AlarmSeverity

  datatype Event = Event(kind: EventType, severity: Severity, value: int)

  /** sensor_data_t as the sensors fill it in. */
  datatype Sample = Sample(
    timestamp: nat, temperature: int, humidity: nat, pressure: int, batteryMv: nat, batteryPercent: nat,
    accelX: int, accelY: int, accelZ: int, magnitude: nat, gasOhm: nat, valid: set<Sensor>)

  /** tag_config_t, without the fields that only other modules use. */
  datatype Config = Config(
    samplingInterval: nat, motionTimeout: nat, motionThreshold: nat, shockThreshold: nat, freeFallThreshold: nat,
    tempHigh: int, tempLow: int, humidityHigh: nat, batteryLow: nat,
    tempDelta: nat, humidityDelta: nat, pressureDelta: nat, maxInterval: nat, serviceWindow: nat,
    gasLow: nat, gasDelta: nat, operatingMode: nat, ledEnabled: nat, historyEnabled: nat)

  function Abs(x: int): nat {
    if x < 0 then -x else x
  }

  function Min(a: nat, b: nat): nat {
    if a < b then a else b
  }

  /** Arithmetic of uint16_t and uint32_t. */
  function Add16(a: nat, b: nat): nat {
    (a + b) % 0x1_0000
  }

  function Add32(a: nat, b: nat): nat {
    if a + b < UINT32_LIMIT then a + b else (a + b) % UINT32_LIMIT
  }

  /** What adding b gives back a, whichever of them is larger. */
  lemma DifferenceAdds(a: nat, b: nat)
    requires a < UINT32_LIMIT && b < UINT32_LIMIT
    ensures 0 <= Sub32(a, b) < UINT32_LIMIT && (b + Sub32(a, b)) % UINT32_LIMIT == a
    ensures Add32(a, b) < UINT32_LIMIT && (Add32(a, b) == a + b || Add32(a, b) + UINT32_LIMIT == a + b)
  {
  }

  function Sub32(a: nat, b: nat): nat
    requires b < UINT32_LIMIT
  {
    if a >= b then a - b else a + UINT32_LIMIT - b
  }
}
