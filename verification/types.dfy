/** The telemetry value objects: one sensor reading and one windowed average. */
module Types {

  /** A point in time, in a fixed unit since a fixed epoch. The value 0 plays
      the part of Go's zero time.Time, the "unset" timestamp. */
  type Time = int

  const UnsetTime: Time := 0

  /** One reading, and one row of the device_data table. */
  datatype Record = Record(deviceId: string, humidity: real, temperature: real, timestamp: Time)

  /** Average humidity and temperature over one device and one time window. */
  datatype Average = Average(humidity: real, temperature: real)
}
