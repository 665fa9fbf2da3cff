# AR844 sound-level-meter MQTT publisher: a Dafny model of its acquisition core

The program polls an AR844 USB sound-level meter. It keeps two libusb interrupt
transfers outstanding: a poll request that it sends, and a response that it
receives. It decodes each 8-byte response into a level in tenths of a decibel.
It aggregates the levels into windows aligned to 60-second wall-clock
boundaries. When a boundary passes it publishes one summary, with the values
written as `tens.ones` text. It makes at most two publish attempts, and it
reconnects after an attempt only when that attempt found no connection.

This project models that core in seven modules. `Common` (common.dfy) holds the
`Option` type and the integer ranges the others share. The other six are:

- `Frame` (frame.dfy): the decoder of the response frame. It works on `bv8`/`bv16`
  shifts and masks as the source does. Lemmas tie it to arithmetic on the byte
  values and to a reference encoder.
- `Clock` (clock.dfy): `timespec_subtract` and the boundary formula of
  `get_next_period`. Both use C's truncating division, written out.
  `timespec_subtract` also narrows to a 32-bit `int`, and that narrowing is
  written out too. `get_next_period` works on `time_t` and narrows nothing.
- `Aggregation` (aggregation.dfy): the globals `dBSum`/`dBMin`/`dBMax`/`sampleCount`/`next_period`
  as a class `Window`. Its `Observe` method is `process_sample`. It is proved
  against a specification over the whole list of levels seen in the window
  (`Sum`, `Min`, `Max`, `Summary`).
- `FixedPoint` (fixed_point.dfy): the `%d.%d` rendering of `v/10`, `v%10`, and a
  parser that reads it back.
- `Publish` (publish.dfy): `publish_sample`'s retry loop, run against an abstract
  broker. The broker is a function that gives the answer to the i-th attempt.
- `Scheduler` (scheduler.dfy): `main_loop` as a class `Poller`. The transfers'
  status fields are -1 while a transfer is in flight and a libusb code once it
  has finished. Completions, clock readings and the exit flag are inputs.

Behaviour of the code worth noting:

- The curve selector maps to `'A'` or `'Z'` (`Frame.Weight`). sample.c prints `C` for the same bit.
- `dBSum` is a `uint32_t` and wraps modulo 2^32.
- The boundary is `((now+P)/P)*P`. That is the next multiple of P strictly after
  `now`. It is not a ceiling: on a boundary it moves a full period ahead
  (`Clock.NextBoundaryOnBoundary`).
- `publish_sample` makes the second attempt after any failure. It reconnects
  only after "no connection", and always after it.
- Inside the loop, the results of `libusb_submit_transfer` (lines 236 and 251) are
  ignored, so a failed resubmission does not end the loop: that transfer simply never
  finishes. The model covers this, because a wait may always report nothing for
  an in-flight transfer.
- The poll guard compares with the literal `500` (line 247). `meter_poll_period`
  has the same value but is never read.
- `process_sample` reads `time(NULL)` twice: once for the boundary check, and
  once inside `get_next_period` after publishing. `Observe` therefore takes two
  clock readings.
- The 2-bit speed field is passed to a `bool` parameter, so values 1, 2 and 3 all
  mean "fast". That parameter is never read.

## Model

| member | source | states |
|---|---|---|
| `Frame.Decode` | mosqitto_ar844.c:219-225 | a frame is decoded exactly when it has 8 bytes; every decoded speed is < 4, curve < 2, range < 8 |
| `Frame.Weight` | mosqitto_ar844.c:228 | the weighting character is 'A' exactly when the curve bit is 0, otherwise 'Z' |
| `Frame.LevelIsBigEndian` | mosqitto_ar844.c:221 | the 16-bit shift-and-or of the two bytes is the big-endian value b0*256 + b1 |
| `Frame.StatusFields` | mosqitto_ar844.c:223-225 | `b >> 6`, `(b >> 4) & 1`, `b & 7` are b/64, (b/16)%2, b%8 |
| `Frame.DecodeArithmetic` | mosqitto_ar844.c:219-228 | for an 8-byte frame: level = byte0*256+byte1, speed = byte2/64, curve = (byte2/16)%2, range = byte2%8, weight 'A' iff bit 4 of byte2 is clear |
| `Frame.Encode` | mosqitto_ar844.c:221-225 | reference encoder of the layout: always an 8-byte frame |
| `Frame.DecodeEncode` | mosqitto_ar844.c:221-225 | decoding the encoding of any in-range reading gives it back: the layout is lossless |
| `Frame.DecodeIgnoresUnusedBits` | mosqitto_ar844.c:221-225 | frames that agree on bytes 0-1 and on bits 7,6,4,2-0 of byte 2 decode alike: nothing else is read |
| `Frame.DecodeExample` | mosqitto_ar844.c:219-228 | 0x05 0xDC 0x10 decodes to 1500 tenths, curve 1 ('Z'); the same bytes as a 7-byte frame are rejected |
| `Clock.ToInt32` | mosqitto_ar844.c:61-63 | narrowing to `int` lands in the 32-bit range and is congruent to its argument modulo 2^32 |
| `Clock.QuotMillis` | mosqitto_ar844.c:62 | ns to ms with C's division is the floor, or floor + 1 exactly for a negative dividend that is not a whole ms |
| `Clock.ElapsedBounds` | mosqitto_ar844.c:59-64 | for normalized instants < ~23 days apart, `timespec_subtract` is floor(true ms difference) or one more; exact when no nanosecond borrow or whole ms |
| `Clock.ElapsedGuard` | mosqitto_ar844.c:245-247 | the guard `diff >= k` passes every gap of at least k ms and no gap of k-1 ms or less |
| `Clock.GuardAdmitsShortGap` | mosqitto_ar844.c:59-64 | concrete gap of 499.000001 ms that `timespec_subtract` reports as 500 |
| `Clock.NextBoundaryAligned` | mosqitto_ar844.c:113-117 | the boundary is a multiple of 60 strictly after `now`; from -60 on it is at most `now + 60` and the least multiple of 60 after `now` |
| `Clock.NextBoundaryOnBoundary` | mosqitto_ar844.c:115 | on a boundary the next boundary is a full period later (not a ceiling) |
| `Aggregation.MinMaxBound` | mosqitto_ar844.c:128-131 | the window minimum and maximum are observed levels and bound all observed levels |
| `Aggregation.SumBound` | mosqitto_ar844.c:127-131 | count*min <= sum <= count*max |
| `Aggregation.SumOfLevels` | mosqitto_ar844.c:127 | a sum of 16-bit levels is between 0 and 65535*count |
| `Aggregation.NoWrapWithinBound` | mosqitto_ar844.c:107 | the 32-bit `dBSum` cannot wrap within 65537 readings |
| `Aggregation.SummaryOrdered` | mosqitto_ar844.c:137 | without wrap the published average is floor(sum/count) and lies between min and max |
| `Aggregation.AverageFitsInt` | mosqitto_ar844.c:137-148 | the `uint32_t` average printed with `%d` always fits a signed 32-bit int, so its digits are its value |
| `Aggregation.SummaryExample` | mosqitto_ar844.c:135-151 | levels 132, 724, 500 summarise to avg 452, min 132, max 724 |
| `Aggregation.BoundaryAdvances` | mosqitto_ar844.c:135-154 | after a snapshot due at b, the next boundary is a later multiple of 60 when the clock does not go back |
| `Aggregation.Window.constructor` | mosqitto_ar844.c:107-117 | zeroed globals, an empty window, boundary from the start time; the window invariant holds |
| `Aggregation.Window.Observe` | mosqitto_ar844.c:119-157 | keeps the invariant (min <= max, min/max/sum mod 2^32/count of the observed levels); a snapshot of the window with the new level, due at the old boundary, is returned exactly when `now >= next_period`, after which the window is empty and the boundary is recomputed from the later clock reading; otherwise the level is appended; the first level of a window sets min = max = sum = dB |
| `FixedPoint.Split` | mosqitto_ar844.c:148-150 | the two printed parts satisfy 10*int + digit == v with digit in 0..9 |
| `FixedPoint.Decimal` | mosqitto_ar844.c:142-144 | `%d` of a non-negative value: at least one decimal digit, a leading '0' only for 0, one digit exactly below 10 |
| `FixedPoint.ValueOfDecimal` | mosqitto_ar844.c:142-144 | the printed digits denote the printed number |
| `FixedPoint.ParseRender` | mosqitto_ar844.c:142-150 | the rendering ends in '.' and the digit v%10, and reads back to v: no rounding, nothing lost |
| `FixedPoint.RenderExample` | mosqitto_ar844.c:148-150 | 452 renders "45.2", 1500 renders "150.0" |
| `Publish.PublishSample` | mosqitto_ar844.c:96-103 | the loop's calls are the reference trace; the message is delivered iff one of the two attempts succeeds; one or two publishes |
| `Publish.TraceShape` | mosqitto_ar844.c:96-103 | from attempt i: 1..2-i publishes, the first with the broker's answer, nothing after a success, a reconnect right after every "no connection" and nowhere else, delivery iff a remaining attempt succeeds |
| `Publish.WholeTrace` | mosqitto_ar844.c:96-103 | over both attempts: delivered iff attempt 0 or 1 succeeds, 1 or 2 publishes, stop at success, every "no connection" is immediately followed by a reconnect and every reconnect immediately follows a "no connection" |
| `Publish.TraceStep` | mosqitto_ar844.c:98-102 | one loop iteration extends the calls made so far by that attempt's calls |
| `Publish.ReconnectThenDeliver` | mosqitto_ar844.c:96-103 | "no connection" then success: publish, reconnect, publish |
| `Publish.DropAfterTwoFailures` | mosqitto_ar844.c:96-103 | "no connection" then another error: two publishes, one reconnect, not delivered |
| `Scheduler.Accepted` | mosqitto_ar844.c:205-229 | a finished receive reaches the aggregation exactly when its status is COMPLETED and it carried 8 bytes, as the decoded frame |
| `Scheduler.PollRateBound` | mosqitto_ar844.c:241-253 | between the i-th and j-th poll request more than (j-i)*499 ms of real time pass |
| `Scheduler.FirstExit` | mosqitto_ar844.c:193 | the iteration count of `while (!doExit)`: ticks before it do not see the flag, the tick at it does |
| `Scheduler.Poller.constructor` | mosqitto_ar844.c:174-191 | both transfers in flight, `last` is the start time, the cadence history is that time alone |
| `Scheduler.Poller.AwaitEvents` | mosqitto_ar844.c:196-200 | only in-flight transfers may finish during the wait; a finished send stays finished; `last` unchanged |
| `Scheduler.Poller.Service` | mosqitto_ar844.c:205-254 | the receive is in flight afterwards; an unaccepted completion or an in-flight receive leaves the aggregation unchanged with nothing published; an accepted one is observed as `Observe` states and a snapshot is published by the retry policy; a finished send is resubmitted, and `last` set to now, exactly when `timespec_subtract(now, last) >= 500`, otherwise both unchanged; consecutive poll submissions stay at least 500 as measured |
| `Scheduler.Poller.Run` | mosqitto_ar844.c:193-255 | runs exactly up to the first tick with the exit flag; keeps the invariants; only appends to the poll history; every emitted snapshot is on a multiple of 60 s; when no tick's second clock reading is earlier than its first, the snapshot times strictly increase, so no boundary is published twice |

## Left out

- USB setup, claim and teardown, and the transfer submission calls (lines 167-189, 259-312): these are foreign I/O. Completions are inputs, under `Scheduler.Tick`.
- The initial submission failures that make `main_loop` return (lines 177-181, 185-189): these are foreign I/O.
- The poll request payload `question` (line 164): it only matters to the device.
- Broker client creation, connect and disconnect, and the real `mosquitto_publish`/`mosquitto_reconnect` calls (lines 66-87, 344-346): these are network. The broker is an abstract function from attempt number to result, and the return value of `mosquitto_reconnect` is ignored, as in the source.
- The topic `snprintf`, the `strftime`/`localtime` time string and the JSON `snprintf` (lines 94, 138-152): these are libc formatting. Only the numeric `v/10`, `v%10` split and its `%d` digits are modelled. The time string is rendered with `localtime` although it ends in `Z`.
- The `fprintf` logging (line 152): output only.
- `signal_handler`, `doExit` and `main` (lines 50-57, 314-348): these are process and signal plumbing. Cancellation is the `exit` flag of each tick.
- The float `soundLeveldB` (line 222): it is floating point and unused.
- The `fast` and `range` parameters of `process_sample` (line 119): they are never read there.
- sample.c: a blocking test harness that repeats the decoder, and prints "C" for curve 1.
- Aggregation.Window.Observe: `sampleCount` is a C `int` and is modelled as an unbounded count. Overflowing it would take 2^31 readings inside one 60 s window.
- Clock.NextBoundaryAligned: the `time_t` overflow of `now + 60` is not modelled. The upper bound `<= now + 60` is stated only for `now >= -60`. With C's truncating division, earlier times give a boundary up to two periods ahead.
- Clock.ElapsedBounds: the exact relation to real time is stated only for instants less than 2,000,000 s apart. That is a round figure below 2,147,483 s, the gap at which `(x.sec - y.sec) * 1000` stops fitting the `int` that `timespec_subtract` narrows it to. `Clock.Elapsed` models that narrowing as wrap-around, although the final signed addition is undefined behaviour in C.
- Scheduler.Poller.Service: the ordering between publishing and the second `time(NULL)` reading is kept only through the `resetNow` input. Publishing is modelled as returning its broker calls, not as blocking.
