/** The tunable constants of the service (config.py), passed to the model as a value. */
module Settings {

  datatype Config = Config(
    truckThreshold: real,          // TRUCK_CONFIDENCE_THRESHOLD
    personThreshold: real,         // PERSON_CONFIDENCE_THRESHOLD
    frameSkip: int,                // FRAME_SKIP: detect on every frameSkip-th frame
    minInterval: int,              // MIN_FRAME_INTERVAL between two admitted frames
    maxAnomalies: int,             // MAX_ANOMALY_FRAMES admitted before reading stops
    supportedFormats: seq<string>) // SUPPORTED_VIDEO_FORMATS
  {
    /** What the selection loop relies on: a positive sampling step and a positive cap. */
    predicate Valid() {
      frameSkip >= 1 && maxAnomalies >= 1
    }
  }

  /** The values shipped in config.py. */
  const Default := Config(0.3, 0.3, 5, 10, 2, [".mp4", ".avi", ".mov"])
}
