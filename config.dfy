/**
 * The consumer's tunables. The Python consumer re-reads these from the
 * environment on every call; here they are one immutable value passed to
 * every operation that needs them.
 */
module Config {

  datatype Config = Config(
    windowSize: nat,        // HEART_ROLLING_WINDOW_SIZE
    stallThreshold: real,   // HEART_STALL_THRESHOLD_BPM
    highThreshold: real,    // HEART_RATE_THRESHOLD_HIGH
    lowThreshold: real      // HEART_RATE_THRESHOLD_LOW
  ) {
    /** A rolling window needs room for at least one reading. */
    predicate Valid() {
      windowSize > 0
    }
  }

  /** The values used when the environment sets none of the variables. */
  const Defaults: Config := Config(5, 5.0, 120.0, 40.0)

  /** The defaults give a usable window, a non-negative stall threshold and consistent alert thresholds. */
  lemma DefaultsAreConsistent()
    ensures Defaults.Valid() && Defaults.windowSize == 5
    ensures Defaults.stallThreshold >= 0.0
    ensures Defaults.lowThreshold <= Defaults.highThreshold
  {
  }
}
