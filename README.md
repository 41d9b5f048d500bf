# Heart-rate stream analytics (buzzline-03-vega consumer)

A Dafny model of the analytics core of the CSV/JSON heart-rate consumer in
`consumers/csv_consumer_vega.py`. The consumer reads messages such as
`{"timestamp": "2025-01-11T18:15:00Z", "heart_rate": 72.0}` from a Kafka topic.
For each message it does three things:

- It raises a HIGH or LOW alert when the reading crosses a configured threshold.
- It appends the reading to a bounded rolling window, a `deque(maxlen=window_size)`.
- It reports a stall once the window is full and its readings spread over no
  more than the stall threshold.

The modules follow the components of the program:

- `Config`: the four tunables as one immutable value, with the defaults from
  the environment getters (window 5, stall threshold 5.0, high 120.0, low 40.0).
- `Windows`: the value-level meaning of the window. `Pushed` is one
  maxlen-bounded append. `Last` is the reference definition it is proved
  against: the last N readings of the history. `Max`, `Min` and `Range` are the
  statistics that `detect_stall` reads.
- `RollingWindow`: the deque as a class. It is a ring buffer over a fixed array
  with a head index and a length. Its ghost `Contents` is the abstract value.
  `Append` evicts the oldest reading when the buffer is full. `Range` is one
  pass over the buffer.
- `Stall`: `detect_stall`. It is the pure decision `Stalled` on a sequence,
  and the method `DetectStall` on the window object.
- `Alert`: `alert_on_heart_rate_anomaly` as the classifier `Classify`.
- `Messages`: what `json.loads` produced (an abstract JSON value, or a decode
  failure), `dict.get`, and `Accept`, the decode-and-validate step. Its checks
  run in the source's order.
- `Processor`: `process_message`. `Process` is a pure function from the
  window's contents and a message to the new contents and the emitted events.
  `ProcessMessage` mutates a `RollingWindow` in place and is proved equal to
  `Process`. `Run` and `Consume` iterate over a sequence of delivered messages.
- `Scenario`: a worked run with the default configuration. Five steady
  readings stall the window. A sixth reading of 130 raises HIGH and ends the
  stall.

Log output is modelled as a trace of `Event`s:

- `HighAlert` and `LowAlert`: the warnings.
- `StallDetected`: the stall notice. It carries the timestamp, the value and
  the window size.
- `Dropped(reason)`: the error logs. The reason is one of `DecodeFailed`,
  `InvalidFormat` and `ProcessingFailed`.

Readings are `real`. Only comparisons and one subtraction are applied to them.

Behaviour the model keeps as the code has it:

- The alerter is an `if`/`elif` with the HIGH test first. With inverted
  thresholds (`low > high`), a reading between them is HIGH and never LOW
  (`Alert.InvertedThresholdsHighWins`).
- A JSON value that is not an object is not a decode error. `data.get` raises
  `AttributeError`, so the message ends in the generic exception branch
  (`ProcessingFailed`).
- `heart_rate` need only be non-null to pass validation. A Python `bool` is an
  int, so `true`/`false` are accepted as 1 and 0. A string, list or object makes
  the alerter's comparison raise `TypeError`, which also lands in the generic
  branch. Each of these cases leaves the window unchanged.
- `detect_stall` returns a boolean. A window that is not yet full is not
  stalled (`Stall.NotFullNeverStalled`); there is no separate "waiting" result.
- No operation needs a non-negative stall threshold or `low <= high`, so
  `Config.Valid` asks only for a positive window size.

## Model

| member | source | states |
|---|---|---|
| `Config.DefaultsAreConsistent` | consumers/csv_consumer_vega.py:56-81 | the defaults give window size 5, a usable window, a non-negative stall threshold and low <= high |
| `Windows.Pushed` | consumers/csv_consumer_vega.py:173 | an append to a maxlen-bounded window leaves it non-empty, never longer than the capacity, and ending with the new reading |
| `Windows.PushedIsLast` | consumers/csv_consumer_vega.py:173 | an append keeps exactly the last `capacity` readings of old contents + [v], in arrival order |
| `Windows.PushFullEvictsOldest` | consumers/csv_consumer_vega.py:173 | appending to a full window drops exactly its oldest reading, puts v last and keeps the length at capacity |
| `Windows.PushNotFullAppends` | consumers/csv_consumer_vega.py:173 | appending to a window with room adds v at the end and drops nothing |
| `Windows.PushAll` | consumers/csv_consumer_vega.py:209 | any sequence of appends leaves at most `capacity` readings |
| `Windows.PushAllIsLast` | consumers/csv_consumer_vega.py:173 | after any sequence of appends the window is exactly the last `capacity` readings of its whole history, in arrival order |
| `Windows.PushAllCapacity` | consumers/csv_consumer_vega.py:209 | the length after appends is min(old length + appended, capacity); a full window stays full |
| `Windows.FifoEviction` | consumers/csv_consumer_vega.py:209 | pushing v1..v(N+1) into an empty window of capacity N leaves exactly v2..v(N+1) |
| `Windows.Max` | consumers/csv_consumer_vega.py:111 | max(window) is an element of the window and no element exceeds it |
| `Windows.Min` | consumers/csv_consumer_vega.py:111 | min(window) is an element of the window and no element is below it |
| `Windows.Range` | consumers/csv_consumer_vega.py:111 | max(window) - min(window) is never negative |
| `Windows.RangeIsSpread` | consumers/csv_consumer_vega.py:111 | the range bounds the difference of every two readings and is attained by one pair |
| `RollingWindow.RollingWindow.constructor` | consumers/csv_consumer_vega.py:209 | a new window is empty, valid, and has the requested maxlen |
| `RollingWindow.RollingWindow.Length` | consumers/csv_consumer_vega.py:100 | len(deque) is the number of readings held, never above the capacity |
| `RollingWindow.RollingWindow.Append` | consumers/csv_consumer_vega.py:173 | the ring buffer stays valid and its contents become `Windows.Pushed(old contents, capacity, v)` |
| `RollingWindow.RollingWindow.Range` | consumers/csv_consumer_vega.py:111 | one pass over the ring buffer returns max(window) - min(window) of its contents |
| `Stall.Stalled` | consumers/csv_consumer_vega.py:99-114 | a stalled window is full; the decision itself is characterised by `Stall.NotFullNeverStalled` and `Stall.StalledIffClose` |
| `Stall.NotFullNeverStalled` | consumers/csv_consumer_vega.py:99-106 | a window shorter than the window size is never stalled, whatever its values or the threshold |
| `Stall.StalledIffClose` | consumers/csv_consumer_vega.py:108-114 | on a full window, stalled holds if and only if no two readings differ by more than the threshold |
| `Stall.StallBoundary` | consumers/csv_consumer_vega.py:112 | a full window with range equal to the threshold is stalled; with range threshold + eps for eps > 0 it is not |
| `Stall.DetectStall` | consumers/csv_consumer_vega.py:89-114 | detect_stall on the window object returns exactly `Stall.Stalled` of its contents |
| `Alert.Classify` | consumers/csv_consumer_vega.py:131-136 | HIGH iff value > high; LOW iff value < low and not value > high; no alert iff low <= value <= high |
| `Alert.ClassifyConsistent` | consumers/csv_consumer_vega.py:131-136 | with low <= high: HIGH iff value > high, LOW iff value < low, nothing iff low <= value <= high |
| `Alert.InvertedThresholdsHighWins` | consumers/csv_consumer_vega.py:131-136 | with high < value < low the elif makes the reading HIGH, not LOW |
| `Messages.Numeric` | consumers/csv_consumer_vega.py:131-135 | only numbers and bools compare with a float threshold; a number keeps its value |
| `Messages.Accept` | consumers/csv_consumer_vega.py:159-167 | a decode failure iff the text is not JSON; an invalid-format failure iff it is an object missing heart_rate or timestamp; success iff it is an object with a numeric heart_rate and a timestamp, and the reading carries those two values |
| `Messages.ExtraFieldsIgnored` | consumers/csv_consumer_vega.py:160-161 | two objects that agree on heart_rate and timestamp are accepted or rejected alike |
| `Processor.AlertEvents` | consumers/csv_consumer_vega.py:131-136 | each reading emits at most one alert event, none exactly when it is not classified, carrying the reading |
| `Processor.Process` | consumers/csv_consumer_vega.py:145-184 | a dropped message (decode failure, missing field, a non-object JSON value or a non-numeric heart_rate; the errors raised before the append) leaves the window unchanged and emits only its error event; an accepted one pushes its value with FIFO eviction; the window never exceeds the window size and a full window stays full |
| `Processor.AcceptedTrace` | consumers/csv_consumer_vega.py:169-179 | an accepted message emits its own alert, if any, then a stall report exactly when the window after the append is stalled, and no error event |
| `Processor.StallDecision` | consumers/csv_consumer_vega.py:175-179 | a stall event is emitted iff the message was accepted and the window after the append is stalled; it names the timestamp, the value and the window size, and comes last |
| `Processor.MessageAlert` | consumers/csv_consumer_vega.py:169-170 | the alert computed from a message and the thresholds alone has at most one event |
| `Processor.AlertsOfProcess` | consumers/csv_consumer_vega.py:169-173 | the alerts one call emits are exactly the message's own alert, which does not read the window |
| `Processor.AlertDecision` | consumers/csv_consumer_vega.py:169-170 | at most one alert per message; HIGH iff value > high, LOW iff value < low and not above high, none for in-range readings and for dropped messages |
| `Processor.AlertIndependentOfWindow` | consumers/csv_consumer_vega.py:169-173 | the alerts a message raises are the same whatever the window holds |
| `Processor.Run` | consumers/csv_consumer_vega.py:217-220 | across successive calls the window never exceeds the window size and once full stays full |
| `Processor.RunWindowIsLastAccepted` | consumers/csv_consumer_vega.py:217-220 | after any run of messages the window is the last window-size readings of the accepted messages; dropped messages leave no trace |
| `Processor.RunSnoc` | consumers/csv_consumer_vega.py:217-220 | processing one more message continues from the window the previous messages left, appending its events |
| `Processor.ProcessMessage` | consumers/csv_consumer_vega.py:145-184 | process_message on the window object keeps it valid, updates it in place to `Process`'s window and returns `Process`'s events |
| `Processor.Consume` | consumers/csv_consumer_vega.py:217-220 | handing the delivered messages to process_message in order leaves the window and the trace that `Run` describes |
| `Scenario.HeartRateMessage` | consumers/csv_consumer_vega.py:7 | a message in the documented format is accepted with its heart_rate and timestamp |
| `Scenario.WarmUpRun` | consumers/csv_consumer_vega.py:99-106 | the first four steady readings leave the window 70, 71, 72, 70 and emit no event while it is not full |
| `Scenario.SteadyWindowStalls` | consumers/csv_consumer_vega.py:170-179 | readings 70, 71, 72, 70, 71 raise no alert and fill the window, whose range of 2 reports exactly one stall, at the fifth reading |
| `Scenario.HighReadingAlertsAndEndsStall` | consumers/csv_consumer_vega.py:170-179 | a further reading of 130 raises HIGH, gives the window 71, 72, 70, 71, 130 and reports no stall |
| `Scenario.ConsumeSteadyThenHigh` | consumers/csv_consumer_vega.py:217-220 | fed through the window object, the six messages emit exactly one stall report followed by one HIGH alert |

## Left out

- `main`'s Kafka plumbing (consumers/csv_consumer_vega.py:192-227) is left out because it is I/O. This covers `create_kafka_consumer`, blocking iteration, `KeyboardInterrupt`, the feed-level exception and `consumer.close()`. `Consume` models only the in-order hand-off of already-delivered messages to `process_message`.
- The environment getters and `load_dotenv` (consumers/csv_consumer_vega.py:35, 42-81) become the `Config` value. `detect_stall` and the alerter re-read it on every call, and the model takes each re-read to return the same value. An unparsable HEART_RATE_THRESHOLD_HIGH or HEART_RATE_THRESHOLD_LOW raises `ValueError` at :128-129, before the append, so the window is unchanged. Topic and group id are used only by `main` and are not modelled.
- Parsing integer and float values from environment text is not modelled, nor are its `ValueError`s. A window size of zero or less is excluded by `Config.Valid`: `deque(maxlen=0)` and the later `max()` of an empty deque are not modelled.
- Exceptions raised after the append are not modelled. These are in `detect_stall`: an unparsable window size (:99) or stall threshold (:112), or an int-to-float overflow in `max - min` (:111). The source catches them at :183-184 with the reading already in the window and its alert already logged.
- Logging is modelled only as the alert, stall and error events. The debug and info lines are not modelled: raw message, processed JSON, warm-up size, range and stalled flag. Message texts are not modelled.
- `json.loads` is abstracted: the model starts from the decoded value or a decode failure. Other exceptions it can raise are not modelled, for example `RecursionError` on deeply nested input.
- Floating point is not modelled: readings are reals, with no NaN or Infinity (Python's `json.loads` accepts both) and no rounding.
- The deque's own block-linked storage is replaced by an array ring buffer with the same FIFO, maxlen-bounded behaviour.
