/** The value types shared by the heart-rate devices and their consumers. */
module DeviceTypes {
  import opened Options

  /** One heart-rate reading: a timestamp in ms, the rate, and the RR interval in ms when the device reports one. */
  datatype HeartRateSample = HeartRateSample(timestamp: real, bpm: real, rrMs: Option<real>)
}
