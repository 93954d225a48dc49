/**
  The sensor record, the same on both sides of the link.  `F` and `D` stand for the machine's
  single and double floats: bit patterns where the record is serialised, real numbers where
  its values are compared with thresholds.
  */
module SensorData {
  import opened Bytes

  datatype Sensors<F, D> = Sensors(
    accelX: F, accelY: F, accelZ: F,
    gyroX: F, gyroY: F, gyroZ: F,
    latitude: D, longitude: D,
    altitude: F, groundSpeed: F,
    fixQuality: byte, satellites: byte,
    batteryVoltage: F, batteryCurrent: F, batteryPct: byte,
    pressure: F, temperature: F,
    timestamp: bv32, status: byte)
}
