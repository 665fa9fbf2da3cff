/**
 * The polling loop of `main_loop`: one receive transfer and one send
 * (poll request) transfer against the meter, both outstanding at once.
 * libusb is abstract: a transfer's status is -1 while it is in flight and
 * becomes a libusb completion code (0 = completed, >0 = error, timeout,
 * stall, ...) when the event wait reports it finished; which transfers
 * finish during a wait, and with what, are inputs.
 */
module Scheduler {
  import opened Common
  import opened Clock
  import opened Frame
  import opened Aggregation
  import opened Publish

  /** The status the loop writes before (re)submitting a transfer. */
  const IN_FLIGHT: int := -1
  /** LIBUSB_TRANSFER_COMPLETED */
  const TRANSFER_COMPLETED: int := 0
  /** Minimum milliseconds between two poll requests: the literal `500` of the send guard. */
  const POLL_PERIOD: int := 500

  /** A finished receive: its libusb status and the bytes received (`actual_length` of them). */
  datatype RecvCompletion = RecvCompletion(status: nat, data: seq<Byte>)

  /** What one loop iteration takes from outside. */
  datatype Tick = Tick(
    exit: bool,                        // `doExit`, read before the iteration
    recvDone: Option<RecvCompletion>,  // the receive finished during the wait
    sendDone: Option<nat>,             // the send finished during the wait, with this status
    sampleNow: int,                    // `time(NULL)` compared with the boundary
    resetNow: int,                     // `time(NULL)` read by `get_next_period`
    broker: nat -> PublishResult,      // the broker's answers to this iteration's publish attempts
    now: Timespec)                     // `clock_gettime` for the poll cadence

  /**
   * The reading a finished receive hands to the aggregation: only a
   * completed transfer of exactly 8 bytes is decoded; any other outcome is dropped.
   */
  function Accepted(status: int, data: seq<Byte>): (r: Option<Reading>)
    ensures r.Some? <==> status == TRANSFER_COMPLETED && |data| == FRAME_LENGTH
    ensures r.Some? ==> r == Decode(data)
  {
    if status == TRANSFER_COMPLETED then Decode(data) else None
  }

  /** Consecutive poll requests were issued at least `POLL_PERIOD` apart, as `timespec_subtract` measures. */
  ghost predicate Spaced(arms: seq<Timespec>)
  {
    forall i :: 0 < i < |arms| ==> Elapsed(arms[i], arms[i - 1]) >= POLL_PERIOD
  }

  /** Clock readings as `clock_gettime` gives them, each less than about 23 days after the previous one. */
  ghost predicate Plausible(arms: seq<Timespec>)
  {
    && (forall i :: 0 <= i < |arms| ==> Normalized(arms[i]))
    && (forall i :: 0 < i < |arms| ==> -2_000_000 <= arms[i].sec - arms[i - 1].sec <= 2_000_000)
  }

  /**
   * The cadence the guard enforces in real time: between the i-th and the
   * j-th poll request more than 499 ms per request have passed (the
   * truncated nanosecond part can let a request through up to 1 ms early).
   */
  lemma {:induction false} PollRateBound(arms: seq<Timespec>, i: nat, j: nat)
    requires Spaced(arms) && Plausible(arms)
    requires i < j < |arms|
    ensures Nanos(arms[j]) - Nanos(arms[i]) > (j - i) * (POLL_PERIOD - 1) * NS_PER_MS
    decreases j - i
  {
    ElapsedGuard(arms[j], arms[j - 1], POLL_PERIOD);
    if i < j - 1 {
      PollRateBound(arms, i, j - 1);
    }
  }

  /** Index of the first iteration that finds the exit flag set, or the number of iterations. */
  function FirstExit(ticks: seq<Tick>): (n: nat)
    ensures n <= |ticks|
    ensures forall i :: 0 <= i < n ==> !ticks[i].exit
    ensures n < |ticks| ==> ticks[n].exit
  {
    if ticks == [] || ticks[0].exit then 0 else 1 + FirstExit(ticks[1..])
  }

  /** `main_loop`'s state: the two transfers, the time of the last poll request, and the aggregation. */
  class Poller {
    var recvStatus: int
    var received: seq<Byte>   // answer[..recv->actual_length]
    var sendStatus: int
    var last: Timespec
    const window: Window
    ghost var arms: seq<Timespec>   // times at which the send was (re)submitted

    ghost predicate Valid()
      reads this, window
    {
      && window.Valid()
      && recvStatus >= IN_FLIGHT && sendStatus >= IN_FLIGHT
      && |arms| > 0 && arms[|arms| - 1] == last
      && Spaced(arms)
    }

    /** Both transfers submitted, `last` read from the clock (the part of `main_loop` before its loop). */
    constructor (w: Window, start: Timespec)
      requires w.Valid()
      ensures Valid() && window == w
      ensures recvStatus == IN_FLIGHT && sendStatus == IN_FLIGHT
      ensures received == [] && last == start && arms == [start]
    {
      window := w;
      recvStatus, sendStatus := IN_FLIGHT, IN_FLIGHT;
      received := [];
      last := start;
      arms := [start];
    }

    /** `libusb_handle_events_timeout_completed`: in-flight transfers may finish; finished ones stay as they are. */
    method AwaitEvents(recvDone: Option<RecvCompletion>, sendDone: Option<nat>)
      requires Valid()
      modifies this
      ensures Valid()
      ensures old(recvStatus) == IN_FLIGHT && recvDone.Some? ==>
        recvStatus == recvDone.value.status && received == recvDone.value.data
      ensures !(old(recvStatus) == IN_FLIGHT && recvDone.Some?) ==>
        recvStatus == old(recvStatus) && received == old(received)
      ensures sendStatus == if old(sendStatus) == IN_FLIGHT && sendDone.Some? then sendDone.value else old(sendStatus)
      ensures last == old(last) && arms == old(arms)
    {
      if recvStatus == IN_FLIGHT && recvDone.Some? {
        recvStatus := recvDone.value.status;
        received := recvDone.value.data;
      }
      if sendStatus == IN_FLIGHT && sendDone.Some? {
        sendStatus := sendDone.value;
      }
    }

    /**
     * The body of the loop after the wait: a finished receive is processed
     * (only if completed with 8 bytes) and always resubmitted; a finished
     * send is resubmitted only once `POLL_PERIOD` ms have passed since the
     * last submission. An in-flight transfer is left alone.
     */
    method Service(sampleNow: int, resetNow: int, broker: nat -> PublishResult, now: Timespec)
      returns (snap: Option<Snapshot>, calls: seq<BrokerCall>)
      requires Valid()
      modifies this, window
      ensures Valid()
      ensures recvStatus == IN_FLIGHT && received == old(received)
      ensures Accepted(old(recvStatus), old(received)).None? ==>
        unchanged(window) && snap == None && calls == []
      ensures Accepted(old(recvStatus), old(received)).Some? ==>
        var reading := Accepted(old(recvStatus), old(received)).value;
        var all := old(window.observed) + [reading.level as int];
        if sampleNow >= old(window.nextPeriod) then
          && snap == Some(Summary(all, old(window.nextPeriod), Weight(reading.curve)))
          && window.observed == [] && window.nextPeriod == NextBoundary(resetNow)
          && calls == Trace(broker, 0)
        else
          && snap == None && calls == []
          && window.observed == all && window.nextPeriod == old(window.nextPeriod)
      ensures snap.Some? ==> snap.value.time % PERIOD == 0
      ensures old(sendStatus) >= 0 && Elapsed(now, old(last)) >= POLL_PERIOD ==>
        sendStatus == IN_FLIGHT && last == now && arms == old(arms) + [now]
      ensures !(old(sendStatus) >= 0 && Elapsed(now, old(last)) >= POLL_PERIOD) ==>
        sendStatus == old(sendStatus) && last == old(last) && arms == old(arms)
    {
      snap, calls := None, [];
      if recvStatus >= 0 {
        if recvStatus == TRANSFER_COMPLETED {
          var reading := Decode(received);
          if reading.Some? {
            snap := window.Observe(reading.value.level as int, Weight(reading.value.curve), sampleNow, resetNow);
            if snap.Some? {
              calls := PublishSample(broker);
            }
          }
        }
        recvStatus := IN_FLIGHT;
      }

      if sendStatus >= 0 {
        var diff := Elapsed(now, last);
        if diff >= POLL_PERIOD {
          last := now;
          arms := arms + [now];
          sendStatus := IN_FLIGHT;
        }
      }
    }

    /**
     * `while (!doExit)`: one wait and one service step per tick, until a tick
     * finds the exit flag set or the ticks run out.
     */
    method Run(ticks: seq<Tick>) returns (iterations: nat, snaps: seq<Snapshot>)
      requires Valid() && recvStatus == IN_FLIGHT
      modifies this, window
      ensures Valid() && recvStatus == IN_FLIGHT
      ensures iterations == FirstExit(ticks)
      ensures |arms| >= |old(arms)| && arms[..|old(arms)|] == old(arms)
      ensures forall k :: 0 <= k < |snaps| ==> snaps[k].time % PERIOD == 0
      ensures (forall k :: 0 <= k < |ticks| ==> ticks[k].resetNow >= ticks[k].sampleNow) ==>
        forall a, b :: 0 <= a < b < |snaps| ==> snaps[a].time < snaps[b].time
    {
      iterations, snaps := 0, [];
      while iterations < |ticks| && !ticks[iterations].exit
        invariant iterations <= FirstExit(ticks)
        invariant Valid() && recvStatus == IN_FLIGHT
        invariant |arms| >= |old(arms)| && arms[..|old(arms)|] == old(arms)
        invariant forall k :: 0 <= k < |snaps| ==> snaps[k].time % PERIOD == 0
        invariant (forall k :: 0 <= k < |ticks| ==> ticks[k].resetNow >= ticks[k].sampleNow) ==>
          && (forall a, b :: 0 <= a < b < |snaps| ==> snaps[a].time < snaps[b].time)
          && (forall a :: 0 <= a < |snaps| ==> snaps[a].time < window.nextPeriod)
        decreases |ticks| - iterations
      {
        var t := ticks[iterations];
        AwaitEvents(t.recvDone, t.sendDone);
        var snap, calls := Service(t.sampleNow, t.resetNow, t.broker, t.now);
        if snap.Some? {
          NextBoundaryAligned(t.resetNow);
          snaps := snaps + [snap.value];
        }
        iterations := iterations + 1;
      }
      FirstExitStops(ticks, iterations);
    }
  }

  lemma {:induction false} FirstExitStops(ticks: seq<Tick>, n: nat)
    requires n <= FirstExit(ticks)
    requires n == |ticks| || ticks[n].exit
    ensures n == FirstExit(ticks)
  {
  }
}
