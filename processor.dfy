/**
 * process_message: decode, validate, alert, append to the rolling window,
 * then check for a stall. Every failure is caught and reported as an event,
 * so a call always returns normally.
 */
module Processor {
  import opened Wrappers
  import opened Config
  import Windows
  import Stall
  import Alert
  import opened Messages
  import RollingWindow

  /** The log events that matter: warnings for alerts, the stall notice, errors for dropped messages. */
  datatype Event =
    | HighAlert(value: real)
    | LowAlert(value: real)
    | StallDetected(timestamp: Json, value: real, windowSize: nat)
    | Dropped(reason: Failure)

  /** The window after one or more messages, and the events they emitted in order. */
  datatype Outcome = Outcome(window: seq<real>, events: seq<Event>)

  predicate IsAlert(e: Event) {
    e.HighAlert? || e.LowAlert?
  }

  /** The warning the alerter logs for a classified reading, if any. */
  function AlertEvents(level: Alert.AlertLevel, value: real): (es: seq<Event>)
    ensures |es| <= 1
    ensures es == [] <==> level == Alert.NoAlert
    ensures forall e :: e in es ==> IsAlert(e) && e.value == value
  {
    match level
    case High => [HighAlert(value)]
    case Low => [LowAlert(value)]
    case NoAlert => []
  }

  /** The alert events of a trace, in order. */
  function Alerts(es: seq<Event>): (r: seq<Event>)
    ensures |r| <= |es|
    ensures forall e :: e in r ==> IsAlert(e) && e in es
    ensures forall e :: e in es && IsAlert(e) ==> e in r
  {
    if es == [] then []
    else (if IsAlert(es[0]) then [es[0]] else []) + Alerts(es[1..])
  }

  lemma {:induction false} AlertsAppend(a: seq<Event>, b: seq<Event>)
    ensures Alerts(a + b) == Alerts(a) + Alerts(b)
    decreases |a|
  {
    if a == [] {
      assert a + b == b;
    } else {
      assert (a + b)[1..] == a[1..] + b;
      AlertsAppend(a[1..], b);
    }
  }

  /** One call of process_message, on the window's contents. */
  function Process(cfg: Config, window: seq<real>, msg: Message): (r: Outcome)
    requires cfg.Valid() && |window| <= cfg.windowSize
    ensures |r.window| <= cfg.windowSize
    ensures |window| == cfg.windowSize ==> |r.window| == cfg.windowSize
    ensures Accept(msg).Failure? ==>
      r.window == window && r.events == [Dropped(Accept(msg).error)]
    ensures Accept(msg).Success? ==>
      r.window == Windows.Pushed(window, cfg.windowSize, Accept(msg).value.value)
  {
    match Accept(msg)
    case Failure(f) => Outcome(window, [Dropped(f)])
    case Success(reading) =>
      var alerts := AlertEvents(Alert.Classify(reading.value, cfg.highThreshold, cfg.lowThreshold), reading.value);
      var window' := Windows.Pushed(window, cfg.windowSize, reading.value);
      var stall :=
        if Stall.Stalled(window', cfg.windowSize, cfg.stallThreshold)
        then [StallDetected(reading.timestamp, reading.value, cfg.windowSize)]
        else [];
      Outcome(window', alerts + stall)
  }

  /**
   * A stall is reported exactly when the message was accepted and the window
   * after the append is stalled; the report names the reading's timestamp,
   * its value and the window size, and comes after any alert.
   */
  lemma StallDecision(cfg: Config, window: seq<real>, msg: Message)
    requires cfg.Valid() && |window| <= cfg.windowSize
    ensures var r := Process(cfg, window, msg);
      (exists e :: e in r.events && e.StallDetected?) <==>
        Accept(msg).Success? && Stall.Stalled(r.window, cfg.windowSize, cfg.stallThreshold)
    ensures var r := Process(cfg, window, msg);
      forall e :: e in r.events && e.StallDetected? ==>
        e == StallDetected(Accept(msg).value.timestamp, Accept(msg).value.value, cfg.windowSize)
    ensures var r := Process(cfg, window, msg);
      forall k :: 0 <= k < |r.events| - 1 ==> !r.events[k].StallDetected?
  {
    var r := Process(cfg, window, msg);
    match Accept(msg)
    case Failure(f) =>
      assert r.events == [Dropped(f)];
    case Success(reading) =>
      var level := Alert.Classify(reading.value, cfg.highThreshold, cfg.lowThreshold);
      var alerts := AlertEvents(level, reading.value);
      var window' := Windows.Pushed(window, cfg.windowSize, reading.value);
      var report := StallDetected(reading.timestamp, reading.value, cfg.windowSize);
      if Stall.Stalled(window', cfg.windowSize, cfg.stallThreshold) {
        assert r.events == alerts + [report];
        assert r.events[|alerts|] == report;
      } else {
        assert r.events == alerts;
      }
  }

  /** The alert a message raises, computed from the message and the thresholds alone. */
  function MessageAlert(cfg: Config, msg: Message): (es: seq<Event>)
    ensures |es| <= 1
  {
    match Accept(msg)
    case Failure(_) => []
    case Success(reading) =>
      AlertEvents(Alert.Classify(reading.value, cfg.highThreshold, cfg.lowThreshold), reading.value)
  }

  /**
   * The alert decision is taken before the append and never reads the
   * window: the alerts of one call are exactly the message's own alert.
   */
  lemma AlertsOfProcess(cfg: Config, window: seq<real>, msg: Message)
    requires cfg.Valid() && |window| <= cfg.windowSize
    ensures Alerts(Process(cfg, window, msg).events) == MessageAlert(cfg, msg)
  {
    var r := Process(cfg, window, msg);
    match Accept(msg)
    case Failure(f) =>
      assert Alerts(r.events) == Alerts([Dropped(f)]);
    case Success(reading) =>
      var alerts := MessageAlert(cfg, msg);
      var stall := r.events[|alerts|..];
      assert r.events == alerts + stall;
      AlertsAppend(alerts, stall);
      assert Alerts(stall) == [] by {
        assert forall e :: e in stall ==> e.StallDetected?;
      }
      assert Alerts(alerts) == alerts by {
        if alerts != [] {
          assert Alerts(alerts) == [alerts[0]] + Alerts(alerts[1..]);
        }
      }
  }

  /**
   * The whole trace of an accepted message: its own alert, if any, then a
   * stall report exactly when the window after the append is stalled, and
   * no error event.
   */
  lemma AcceptedTrace(cfg: Config, window: seq<real>, msg: Message)
    requires cfg.Valid() && |window| <= cfg.windowSize && Accept(msg).Success?
    ensures var r := Process(cfg, window, msg);
      var reading := Accept(msg).value;
      r.events == MessageAlert(cfg, msg) +
        (if Stall.Stalled(r.window, cfg.windowSize, cfg.stallThreshold)
         then [StallDetected(reading.timestamp, reading.value, cfg.windowSize)]
         else [])
    ensures forall e :: e in Process(cfg, window, msg).events ==> !e.Dropped?
  {
  }

  /**
   * The alert raised by a message: at most one, HIGH exactly above the high
   * threshold, LOW exactly below the low one and not above the high one,
   * none for an in-range reading or a dropped message.
   */
  lemma AlertDecision(cfg: Config, window: seq<real>, msg: Message)
    requires cfg.Valid() && |window| <= cfg.windowSize
    ensures var alerts := Alerts(Process(cfg, window, msg).events);
      |alerts| <= 1 &&
      (Accept(msg).Failure? ==> alerts == []) &&
      (Accept(msg).Success? ==>
        var v := Accept(msg).value.value;
        (alerts == [HighAlert(v)] <==> v > cfg.highThreshold) &&
        (alerts == [LowAlert(v)] <==> v < cfg.lowThreshold && !(v > cfg.highThreshold)) &&
        (alerts == [] <==> cfg.lowThreshold <= v <= cfg.highThreshold))
  {
    AlertsOfProcess(cfg, window, msg);
  }

  /** Whatever two windows hold, the same message raises the same alerts. */
  lemma AlertIndependentOfWindow(cfg: Config, w1: seq<real>, w2: seq<real>, msg: Message)
    requires cfg.Valid() && |w1| <= cfg.windowSize && |w2| <= cfg.windowSize
    ensures Alerts(Process(cfg, w1, msg).events) == Alerts(Process(cfg, w2, msg).events)
  {
    AlertsOfProcess(cfg, w1, msg);
    AlertsOfProcess(cfg, w2, msg);
  }

  /** Successive calls of process_message on one window, in delivery order. */
  function Run(cfg: Config, window: seq<real>, msgs: seq<Message>): (r: Outcome)
    requires cfg.Valid() && |window| <= cfg.windowSize
    ensures |r.window| <= cfg.windowSize
    ensures |window| == cfg.windowSize ==> |r.window| == cfg.windowSize
    decreases |msgs|
  {
    if msgs == [] then Outcome(window, [])
    else
      var before := Run(cfg, window, msgs[..|msgs| - 1]);
      var step := Process(cfg, before.window, msgs[|msgs| - 1]);
      Outcome(step.window, before.events + step.events)
  }

  /**
   * Extending a run by one message is one more call of process_message on
   * the window it left: Run's own recursive step, stated for any prefix.
   */
  lemma RunSnoc(cfg: Config, window: seq<real>, msgs: seq<Message>, msg: Message)
    requires cfg.Valid() && |window| <= cfg.windowSize
    ensures var before := Run(cfg, window, msgs);
      var step := Process(cfg, before.window, msg);
      Run(cfg, window, msgs + [msg]) == Outcome(step.window, before.events + step.events)
  {
    assert (msgs + [msg])[..|msgs|] == msgs;
  }

  /** The readings of the accepted messages, in arrival order. */
  function AcceptedValues(msgs: seq<Message>): (vs: seq<real>)
    ensures |vs| <= |msgs|
    decreases |msgs|
  {
    if msgs == [] then []
    else
      AcceptedValues(msgs[..|msgs| - 1]) +
      (match Accept(msgs[|msgs| - 1]) case Success(reading) => [reading.value] case Failure(_) => [])
  }

  /**
   * After any run of messages the window holds the last windowSize readings
   * of the accepted messages; dropped messages leave no trace in it.
   */
  lemma {:induction false} RunWindowIsLastAccepted(cfg: Config, window: seq<real>, msgs: seq<Message>)
    requires cfg.Valid() && |window| <= cfg.windowSize
    ensures Run(cfg, window, msgs).window == Windows.Last(window + AcceptedValues(msgs), cfg.windowSize)
    decreases |msgs|
  {
    var n := cfg.windowSize;
    if msgs == [] {
      assert window + AcceptedValues(msgs) == window;
    } else {
      var init, msg := msgs[..|msgs| - 1], msgs[|msgs| - 1];
      var before := Run(cfg, window, init);
      var tail := AcceptedValues([msg]);
      assert AcceptedValues(msgs) == AcceptedValues(init) + tail by {
        assert [msg][..0] == [];
      }
      calc {
        Run(cfg, window, msgs).window;
        Process(cfg, before.window, msg).window;
        { ProcessWindowIsLast(cfg, before.window, msg); }
        Windows.Last(before.window + tail, n);
        { RunWindowIsLastAccepted(cfg, window, init); }
        Windows.Last(Windows.Last(window + AcceptedValues(init), n) + tail, n);
        { Windows.LastOfLast(window + AcceptedValues(init), tail, n); }
        Windows.Last(window + AcceptedValues(init) + tail, n);
        { assert window + AcceptedValues(init) + tail == window + AcceptedValues(msgs); }
        Windows.Last(window + AcceptedValues(msgs), n);
      }
    }
  }

  /** One call appends the message's reading when it is accepted, and nothing otherwise. */
  lemma ProcessWindowIsLast(cfg: Config, window: seq<real>, msg: Message)
    requires cfg.Valid() && |window| <= cfg.windowSize
    ensures Process(cfg, window, msg).window == Windows.Last(window + AcceptedValues([msg]), cfg.windowSize)
  {
    assert [msg][..0] == [];
    if Accept(msg).Failure? {
      assert window + AcceptedValues([msg]) == window;
    } else {
      Windows.PushedIsLast(window, cfg.windowSize, Accept(msg).value.value);
    }
  }

  /** process_message over the consumer's window object, mutating it in place. */
  method ProcessMessage(msg: Message, window: RollingWindow.RollingWindow, cfg: Config)
    returns (events: seq<Event>)
    requires cfg.Valid() && window.Valid() && window.capacity == cfg.windowSize
    modifies window, window.data
    ensures window.Valid()
    ensures window.Contents == Process(cfg, old(window.Contents), msg).window
    ensures events == Process(cfg, old(window.Contents), msg).events
  {
    match Accept(msg)
    case Failure(f) =>
      events := [Dropped(f)];
    case Success(reading) =>
      var level := Alert.Classify(reading.value, cfg.highThreshold, cfg.lowThreshold);
      events := AlertEvents(level, reading.value);
      window.Append(reading.value);
      var stalled := Stall.DetectStall(window, cfg.windowSize, cfg.stallThreshold);
      if stalled {
        events := events + [StallDetected(reading.timestamp, reading.value, cfg.windowSize)];
      }
  }

  /**
   * The body of the consumer loop: each delivered message is handed to
   * process_message in order, against the one window the loop owns.
   */
  method Consume(msgs: seq<Message>, window: RollingWindow.RollingWindow, cfg: Config)
    returns (events: seq<Event>)
    requires cfg.Valid() && window.Valid() && window.capacity == cfg.windowSize
    modifies window, window.data
    ensures window.Valid()
    ensures Outcome(window.Contents, events) == Run(cfg, old(window.Contents), msgs)
  {
    events := [];
    for i := 0 to |msgs|
      invariant window.Valid()
      invariant Outcome(window.Contents, events) == Run(cfg, old(window.Contents), msgs[..i])
    {
      assert msgs[..i + 1] == msgs[..i] + [msgs[i]];
      RunSnoc(cfg, old(window.Contents), msgs[..i], msgs[i]);
      var step := ProcessMessage(msgs[i], window, cfg);
      events := events + step;
    }
    assert msgs[..|msgs|] == msgs;
  }
}
