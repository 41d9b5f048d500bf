/**
 * detect_stall: a window reports a stall only once it is full, and then
 * exactly when its readings spread over no more than the threshold.
 */
module Stall {
  import Windows
  import RollingWindow

  /** The decision detect_stall makes about a window's contents. */
  function Stalled(window: seq<real>, windowSize: nat, threshold: real): (stalled: bool)
    requires 0 < windowSize
    ensures stalled ==> windowSize <= |window|
  {
    if |window| < windowSize then false
    else Windows.Range(window) <= threshold
  }

  /** Warm-up: a window shorter than the window size never reports a stall. */
  lemma NotFullNeverStalled(window: seq<real>, windowSize: nat, threshold: real)
    requires 0 < windowSize && |window| < windowSize
    ensures !Stalled(window, windowSize, threshold)
  {
  }

  /**
   * On a full window, a stall is reported exactly when no two readings
   * differ by more than the threshold.
   */
  lemma StalledIffClose(window: seq<real>, windowSize: nat, threshold: real)
    requires 0 < windowSize <= |window|
    ensures Stalled(window, windowSize, threshold) <==>
      forall i, j :: 0 <= i < |window| && 0 <= j < |window| ==> window[i] - window[j] <= threshold
  {
    Windows.RangeIsSpread(window);
    if !Stalled(window, windowSize, threshold) {
      var i, j :| 0 <= i < |window| && 0 <= j < |window| && window[i] - window[j] == Windows.Range(window);
      assert window[i] - window[j] > threshold;
    }
  }

  /**
   * The boundary is inclusive: a full window whose range equals the
   * threshold is stalled, and one whose range exceeds it by any eps is not.
   */
  lemma StallBoundary(window: seq<real>, windowSize: nat, threshold: real, eps: real)
    requires 0 < windowSize <= |window| && 0.0 < eps
    ensures Windows.Range(window) == threshold ==> Stalled(window, windowSize, threshold)
    ensures Windows.Range(window) == threshold + eps ==> !Stalled(window, windowSize, threshold)
  {
  }

  /** detect_stall over the consumer's window object. */
  method DetectStall(window: RollingWindow.RollingWindow, windowSize: nat, threshold: real)
    returns (stalled: bool)
    requires window.Valid() && 0 < windowSize
    ensures stalled == Stalled(window.Contents, windowSize, threshold)
  {
    if window.Length() < windowSize {
      return false;
    }
    var hrRange := window.Range();
    stalled := hrRange <= threshold;
  }
}
