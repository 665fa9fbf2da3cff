/**
 * The delivery policy of `publish_sample`: at most two publish attempts,
 * stopping at the first success, with a reconnect request after each
 * attempt that found the client not connected. The broker is abstract:
 * `broker(i)` is its answer to the i-th publish attempt of this call.
 */
module Publish {

  /** Publish call results: MOSQ_ERR_SUCCESS, MOSQ_ERR_NO_CONN, or any other code. */
  datatype PublishResult = Success | NoConnection | OtherError(code: int)

  /** What the core asks of the client library, in order. */
  datatype BrokerCall = Publish(result: PublishResult) | Reconnect

  /** Number of publish attempts per message. */
  const ATTEMPTS: nat := 2

  /** The calls made from attempt `i` on (the reference definition of the policy). */
  function Trace(broker: nat -> PublishResult, i: nat): seq<BrokerCall>
    requires i <= ATTEMPTS
    decreases ATTEMPTS - i
  {
    if i == ATTEMPTS then []
    else
      var r := broker(i);
      if r == Success then [Publish(r)] else AttemptCalls(r) + Trace(broker, i + 1)
  }

  /** The calls of one unsuccessful attempt: the publish, then a reconnect if it found no connection. */
  function AttemptCalls(r: PublishResult): seq<BrokerCall>
  {
    [Publish(r)] + (if r == NoConnection then [Reconnect] else [])
  }

  /** One attempt of the loop, seen against the whole trace. */
  lemma TraceStep(broker: nat -> PublishResult, i: nat, prefix: seq<BrokerCall>)
    requires i < ATTEMPTS
    requires prefix + Trace(broker, i) == Trace(broker, 0)
    ensures broker(i) == Success ==> prefix + [Publish(Success)] == Trace(broker, 0)
    ensures broker(i) != Success ==> (prefix + AttemptCalls(broker(i))) + Trace(broker, i + 1) == Trace(broker, 0)
  {
  }

  function PublishCount(calls: seq<BrokerCall>): nat
  {
    if calls == [] then 0
    else PublishCount(calls[..|calls| - 1]) + (if calls[|calls| - 1].Publish? then 1 else 0)
  }

  predicate Delivered(calls: seq<BrokerCall>)
  {
    Publish(Success) in calls
  }

  /** Some attempt from `i` on would be answered with success. */
  predicate AnswersSuccess(broker: nat -> PublishResult, i: nat)
    requires i <= ATTEMPTS
    decreases ATTEMPTS - i
  {
    i < ATTEMPTS && (broker(i) == Success || AnswersSuccess(broker, i + 1))
  }

  /** `publish_sample`'s counted loop with its early exit. */
  method PublishSample(broker: nat -> PublishResult) returns (calls: seq<BrokerCall>)
    ensures calls == Trace(broker, 0)
    ensures Delivered(calls) <==> broker(0) == Success || broker(1) == Success
    ensures 1 <= PublishCount(calls) <= ATTEMPTS
  {
    calls := [];
    for i := 0 to ATTEMPTS
      invariant calls + Trace(broker, i) == Trace(broker, 0)
    {
      ghost var before := calls;
      TraceStep(broker, i, calls);
      var r := broker(i);
      calls := calls + [Publish(r)];
      if r == Success {
        break;
      }
      if r == NoConnection {
        calls := calls + [Reconnect];
      }
      assert calls == before + AttemptCalls(r);
    }
    WholeTrace(broker);
  }

  /**
   * The policy over both attempts: one or two publishes, delivery iff one of
   * them succeeds, nothing after a success, a reconnect right after every
   * "no connection" and at no other point.
   */
  lemma WholeTrace(broker: nat -> PublishResult)
    ensures Delivered(Trace(broker, 0)) <==> broker(0) == Success || broker(1) == Success
    ensures 1 <= PublishCount(Trace(broker, 0)) <= ATTEMPTS
    ensures forall k :: 0 <= k < |Trace(broker, 0)| && Trace(broker, 0)[k] == Publish(Success) ==> k == |Trace(broker, 0)| - 1
    ensures forall k :: 0 <= k < |Trace(broker, 0)| && Trace(broker, 0)[k] == Reconnect ==> k > 0 && Trace(broker, 0)[k - 1] == Publish(NoConnection)
    ensures forall k :: 0 <= k < |Trace(broker, 0)| && Trace(broker, 0)[k] == Publish(NoConnection) ==> k + 1 < |Trace(broker, 0)| && Trace(broker, 0)[k + 1] == Reconnect
  {
    TraceShape(broker, 0);
    assert AnswersSuccess(broker, 0) <==> broker(0) == Success || AnswersSuccess(broker, 1);
    assert AnswersSuccess(broker, 1) <==> broker(1) == Success;
  }

  /**
   * What the trace from attempt `i` on looks like: at most `ATTEMPTS - i`
   * publishes, at least one; nothing after a successful publish; a
   * reconnect right after every publish that found no connection, and
   * nowhere else;
   * delivery exactly when one of the remaining attempts succeeds.
   */
  lemma {:induction false} TraceShape(broker: nat -> PublishResult, i: nat)
    requires i < ATTEMPTS
    ensures 1 <= PublishCount(Trace(broker, i)) <= ATTEMPTS - i
    ensures Trace(broker, i)[0] == Publish(broker(i))
    ensures forall k :: 0 <= k < |Trace(broker, i)| && Trace(broker, i)[k] == Publish(Success) ==> k == |Trace(broker, i)| - 1
    ensures forall k :: 0 <= k < |Trace(broker, i)| && Trace(broker, i)[k] == Reconnect ==> k > 0 && Trace(broker, i)[k - 1] == Publish(NoConnection)
    ensures forall k :: 0 <= k < |Trace(broker, i)| && Trace(broker, i)[k] == Publish(NoConnection) ==> k + 1 < |Trace(broker, i)| && Trace(broker, i)[k + 1] == Reconnect
    ensures Delivered(Trace(broker, i)) <==> AnswersSuccess(broker, i)
    decreases ATTEMPTS - i
  {
    var t := Trace(broker, i);
    var r := broker(i);
    if r == Success {
      assert t == [Publish(Success)];
      assert PublishCount(t) == PublishCount([]) + 1;
    } else {
      var head := AttemptCalls(r);
      var rest := Trace(broker, i + 1);
      assert t == head + rest;
      assert PublishCount(head) == 1 by {
        if r == NoConnection {
          assert head[..1] == [Publish(r)];
          assert PublishCount([Publish(r)]) == PublishCount([]) + 1;
        } else {
          assert PublishCount([Publish(r)]) == PublishCount([]) + 1;
        }
      }
      PublishCountAppend(head, rest);
      if i + 1 < ATTEMPTS {
        TraceShape(broker, i + 1);
        forall k | 0 <= k < |t| && t[k] == Reconnect
          ensures k > 0 && t[k - 1] == Publish(NoConnection)
        {
          if k >= |head| {
            assert rest[k - |head|] == Reconnect;
            assert k - |head| > 0;
            assert t[k - 1] == rest[k - |head| - 1];
          }
        }
        assert Delivered(t) <==> Delivered(rest) by {
          assert Publish(Success) !in head;
        }
      } else {
        assert rest == [];
        assert t == head;
      }
    }
  }

  lemma {:induction false} PublishCountAppend(a: seq<BrokerCall>, b: seq<BrokerCall>)
    ensures PublishCount(a + b) == PublishCount(a) + PublishCount(b)
    decreases |b|
  {
    if b != [] {
      assert (a + b)[..|a + b| - 1] == a + b[..|b| - 1];
      PublishCountAppend(a, b[..|b| - 1]);
    } else {
      assert a + b == a;
    }
  }

  /** Not connected at first, then accepted: one reconnect, and the message is delivered once. */
  lemma ReconnectThenDeliver()
    ensures Trace(i => if i == 0 then NoConnection else Success, 0)
            == [Publish(NoConnection), Reconnect, Publish(Success)]
  {
  }

  /** Two failures: two attempts, reconnects only after "no connection", and the message is dropped. */
  lemma DropAfterTwoFailures()
    ensures Trace(i => if i == 0 then NoConnection else OtherError(14), 0)
            == [Publish(NoConnection), Reconnect, Publish(OtherError(14))]
    ensures !Delivered([Publish(NoConnection), Reconnect, Publish(OtherError(14))])
  {
  }
}
