/**
 * A worked run with the default configuration (window 5, stall threshold
 * 5.0, high 120.0, low 40.0): five steady readings fill the window and
 * report a stall; a sixth reading of 130 raises a HIGH alert, evicts the
 * oldest reading and ends the stall.
 */
module Scenario {
  import opened Config
  import opened Messages
  import opened Processor
  import Windows
  import Stall
  import RollingWindow

  /** {"timestamp": timestamp, "heart_rate": value} once decoded. */
  function HeartRateMessage(timestamp: string, value: real): (msg: Message)
    ensures Accept(msg) == Wrappers.Success(Reading(value, JString(timestamp)))
  {
    Decoded(JObject(map["timestamp" := JString(timestamp), "heart_rate" := JNumber(value)]))
  }

  /** One accepted in-range reading that neither fills the window nor stalls it. */
  lemma WarmUpStep(window: seq<real>, timestamp: string, value: real)
    requires |window| < 4 && 40.0 <= value <= 120.0
    ensures Process(Defaults, window, HeartRateMessage(timestamp, value)) == Outcome(window + [value], [])
  {
    assert !Stall.Stalled(window + [value], 5, 5.0);
  }

  /** The steady window spreads over 2.0, within the threshold of 5.0. */
  lemma SteadyWindowIsStalled()
    ensures Stall.Stalled([70.0, 71.0, 72.0, 70.0, 71.0], 5, 5.0)
  {
    var full := [70.0, 71.0, 72.0, 70.0, 71.0];
    Windows.RangeIsSpread(full);
    assert full[2] - full[0] == 2.0;
  }

  /** The fifth steady reading completes the window ... */
  lemma FillWindow(timestamp: string)
    ensures Process(Defaults, [70.0, 71.0, 72.0, 70.0], HeartRateMessage(timestamp, 71.0)).window ==
      [70.0, 71.0, 72.0, 70.0, 71.0]
  {
    assert [70.0, 71.0, 72.0, 70.0] + [71.0] == [70.0, 71.0, 72.0, 70.0, 71.0];
  }

  /** ... and, with no alert, reports only the stall. */
  lemma FillEvents(timestamp: string)
    ensures Process(Defaults, [70.0, 71.0, 72.0, 70.0], HeartRateMessage(timestamp, 71.0)).events ==
      [StallDetected(JString(timestamp), 71.0, 5)]
  {
    FillWindow(timestamp);
    SteadyWindowIsStalled();
  }

  /** The first four steady readings only warm the window up: no event at all. */
  lemma WarmUpRun(t1: string, t2: string, t3: string, t4: string)
    ensures Run(Defaults, [], [
        HeartRateMessage(t1, 70.0), HeartRateMessage(t2, 71.0), HeartRateMessage(t3, 72.0),
        HeartRateMessage(t4, 70.0)]) == Outcome([70.0, 71.0, 72.0, 70.0], [])
  {
    var m1, m2, m3 := HeartRateMessage(t1, 70.0), HeartRateMessage(t2, 71.0), HeartRateMessage(t3, 72.0);
    var m4 := HeartRateMessage(t4, 70.0);
    assert [] + [m1] == [m1];
    RunSnoc(Defaults, [], [], m1);
    WarmUpStep([], t1, 70.0);
    assert Run(Defaults, [], [m1]) == Outcome([70.0], []);
    assert [m1] + [m2] == [m1, m2];
    RunSnoc(Defaults, [], [m1], m2);
    WarmUpStep([70.0], t2, 71.0);
    assert Run(Defaults, [], [m1, m2]) == Outcome([70.0, 71.0], []);
    assert [m1, m2] + [m3] == [m1, m2, m3];
    RunSnoc(Defaults, [], [m1, m2], m3);
    WarmUpStep([70.0, 71.0], t3, 72.0);
    assert Run(Defaults, [], [m1, m2, m3]) == Outcome([70.0, 71.0, 72.0], []);
    assert [m1, m2, m3] + [m4] == [m1, m2, m3, m4];
    RunSnoc(Defaults, [], [m1, m2, m3], m4);
    WarmUpStep([70.0, 71.0, 72.0], t4, 70.0);
  }

  lemma SteadyWindowStalls(t1: string, t2: string, t3: string, t4: string, t5: string)
    ensures var o := Run(Defaults, [], [
        HeartRateMessage(t1, 70.0), HeartRateMessage(t2, 71.0), HeartRateMessage(t3, 72.0),
        HeartRateMessage(t4, 70.0), HeartRateMessage(t5, 71.0)]);
      o.window == [70.0, 71.0, 72.0, 70.0, 71.0] &&
      o.events == [StallDetected(JString(t5), 71.0, 5)]
  {
    var m1, m2, m3 := HeartRateMessage(t1, 70.0), HeartRateMessage(t2, 71.0), HeartRateMessage(t3, 72.0);
    var m4, m5 := HeartRateMessage(t4, 70.0), HeartRateMessage(t5, 71.0);
    WarmUpRun(t1, t2, t3, t4);
    assert [m1, m2, m3, m4] + [m5] == [m1, m2, m3, m4, m5];
    RunSnoc(Defaults, [], [m1, m2, m3, m4], m5);
    FillWindow(t5);
    FillEvents(t5);
  }

  lemma HighReadingAlertsAndEndsStall(t6: string)
    ensures var o := Process(Defaults, [70.0, 71.0, 72.0, 70.0, 71.0], HeartRateMessage(t6, 130.0));
      o.window == [71.0, 72.0, 70.0, 71.0, 130.0] &&
      o.events == [HighAlert(130.0)]
  {
    var next := [71.0, 72.0, 70.0, 71.0, 130.0];
    assert [70.0, 71.0, 72.0, 70.0, 71.0][1..] + [130.0] == next;
    Windows.RangeIsSpread(next);
    assert next[4] - next[2] == 60.0;
    assert !Stall.Stalled(next, 5, 5.0);
  }

  /** The same six messages fed through the consumer's window object. */
  method ConsumeSteadyThenHigh(t1: string, t2: string, t3: string, t4: string, t5: string, t6: string)
    returns (events: seq<Event>)
    ensures events == [StallDetected(JString(t5), 71.0, 5), HighAlert(130.0)]
  {
    var window := new RollingWindow.RollingWindow(Defaults.windowSize);
    var steady := [
      HeartRateMessage(t1, 70.0), HeartRateMessage(t2, 71.0), HeartRateMessage(t3, 72.0),
      HeartRateMessage(t4, 70.0), HeartRateMessage(t5, 71.0)];
    var high := HeartRateMessage(t6, 130.0);
    events := Consume(steady + [high], window, Defaults);
    SteadyWindowStalls(t1, t2, t3, t4, t5);
    RunSnoc(Defaults, [], steady, high);
    HighReadingAlertsAndEndsStall(t6);
  }
}
