/** alert_on_heart_rate_anomaly: classify one reading against the thresholds. */
module Alert {

  datatype AlertLevel = NoAlert | High | Low

  /** The if/elif of the alerter: HIGH is checked first and wins. */
  function Classify(value: real, high: real, low: real): (level: AlertLevel)
    ensures level == High <==> value > high
    ensures level == Low <==> value < low && !(value > high)
    ensures level == NoAlert <==> low <= value <= high
  {
    if value > high then High
    else if value < low then Low
    else NoAlert
  }

  /**
   * With consistent thresholds (low <= high) the two alerts cover disjoint
   * ranges: HIGH exactly above high, LOW exactly below low, nothing between.
   */
  lemma ClassifyConsistent(value: real, high: real, low: real)
    requires low <= high
    ensures Classify(value, high, low) == High <==> value > high
    ensures Classify(value, high, low) == Low <==> value < low
    ensures Classify(value, high, low) == NoAlert <==> low <= value <= high
  {
  }

  /**
   * With inverted thresholds (low > high) a reading between them is both
   * above high and below low; the elif makes it HIGH and never LOW.
   */
  lemma InvertedThresholdsHighWins(value: real, high: real, low: real)
    requires high < value < low
    ensures Classify(value, high, low) == High
  {
  }
}
