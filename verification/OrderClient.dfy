/** The shared state of the order client, updated in place. `Perform` does any step of the
transition system; `SendAndAwait` is a whole call, with whatever the other parties do
between its own atomic actions. */
module OrderClient {
  import opened Options
  import opened Collections
  import P = OrderProtocol
  import S = OrderSafety
  import R = OrderResults

  class WsOrderClient {
    var requests: map<P.Req, P.Request>
    var pending: map<P.Oid, P.Req>
    var outbound: seq<P.Req>
    var closed: bool
    var shutdown: bool
    var handles: bool
    var writer: P.Writer
    var reader: P.Reader
    ghost var enqueued: seq<P.Req>
    ghost var written: seq<P.Req>

    ghost function State(): P.State
      reads this
    {
      P.State(requests, pending, outbound, closed, shutdown, handles, writer, reader, enqueued, written)
    }

    ghost predicate Valid()
      reads this
    {
      S.Invariant(State())
    }

    constructor Connect()
      ensures Valid() && State() == P.CONNECTED
    {
      requests, pending, outbound := map[], map[], [];
      closed, shutdown, handles := false, false, true;
      writer, reader := P.Ready, P.Reading;
      enqueued, written := [], [];
    }

    method SetStage(r: P.Req, stage: P.Stage)
      requires r in requests
      modifies `requests
      ensures requests == old(requests)[r := old(requests)[r].(stage := stage)]
    {
      requests := requests[r := requests[r].(stage := stage)];
    }

    // send_and_await, one atomic action at a time

    method IsClosed() returns (r: bool)
      ensures r == closed
    {
      r := closed;
    }

    /** The call is admitted exactly if the client is not closed. */
    method CheckOpen(r: P.Req, oid: P.Oid) returns (admitted: bool)
      requires Valid() && P.Enabled(State(), P.Start(r, oid))
      modifies this
      ensures Valid() && State() == P.Next(old(State()), P.Start(r, oid))
      ensures admitted == !old(closed)
      ensures admitted ==> State().At(r, P.Checked) && requests[r].oid == oid
      ensures !admitted ==> State().At(r, P.Done(P.Failed(P.ClientClosed)))
      ensures oid !in pending && r !in enqueued
    {
      S.StepKeepsInvariant(State(), P.Start(r, oid));
      var isClosed := IsClosed();
      admitted := !isClosed;
      requests := requests[r := P.Request(oid, if isClosed then P.Done(P.Failed(P.ClientClosed)) else P.Checked, None)];
      assert S.PastQueue(State(), r) == false;
    }

    method InsertSender(r: P.Req)
      requires Valid() && P.Enabled(State(), P.Insert(r))
      modifies this
      ensures Valid() && State() == P.Next(old(State()), P.Insert(r))
      ensures State().At(r, P.Inserted) && State().SenderPending(r)
    {
      S.StepKeepsInvariant(State(), P.Insert(r));
      pending := pending[requests[r].oid := r];
      SetStage(r, P.Inserted);
    }

    /** An accepted frame goes to the end of the queue; a refused one never enters it. */
    method TrySend(r: P.Req) returns (refused: Option<P.Failure>)
      requires Valid() && P.Enabled(State(), P.TrySend(r))
      modifies this
      ensures Valid() && State() == P.Next(old(State()), P.TrySend(r))
      ensures refused.None? <==> !old(writer).WriterDone? && |old(outbound)| < 256
      ensures refused.None? ==> State().At(r, P.Waiting) && outbound == old(outbound) + [r]
      ensures refused.Some? ==> State().At(r, P.Leaving(refused.value)) && outbound == old(outbound)
      ensures refused.Some? ==> refused.value == if old(writer).WriterDone? then P.WriterGone else P.QueueFull
      ensures r in enqueued <==> refused.None?
    {
      S.StepKeepsInvariant(State(), P.TrySend(r));
      refused := None;
      if writer.WriterDone? {
        refused := Some(P.WriterGone);
      } else if |outbound| >= P.OUTBOUND_QUEUE_CAPACITY {
        refused := Some(P.QueueFull);
      }
      if refused.Some? {
        SetStage(r, P.Leaving(refused.value));
      } else {
        outbound := outbound + [r];
        enqueued := enqueued + [r];
        SetStage(r, P.Waiting);
      }
      assert S.PastQueue(State(), r) <==> refused.None?;
    }

    /** The await resolves: with the answer if there is one, else by the deadline. */
    method Await(r: P.Req) returns (ack: Option<P.Ack>)
      requires Valid() && State().At(r, P.Waiting)
      modifies this
      ensures Valid() && ack == old(requests)[r].inbox
      ensures ack.Some? ==> State() == P.Next(old(State()), P.TakeAck(r))
      ensures ack.None? ==> State() == P.Next(old(State()), P.TimeOut(r))
      ensures ack.Some? ==> State().At(r, P.Done(P.Acked(ack.value)))
      ensures ack.Some? ==> ack.value.ConnectionClosed? || ack.value.oid == requests[r].oid
      ensures ack.Some? ==> requests[r].oid !in pending
      ensures ack.None? ==> State().At(r, P.Leaving(P.TimedOut))
      ensures requests[r].oid == old(requests)[r].oid
    {
      ack := requests[r].inbox;
      if ack.Some? {
        AnsweredIsNotPending(State(), r);
      }
      S.StepKeepsInvariant(State(), if ack.Some? then P.TakeAck(r) else P.TimeOut(r));
      assert P.Routed(requests[r]);
      SetStage(r, if ack.Some? then P.Done(P.Acked(ack.value)) else P.Leaving(P.TimedOut));
    }

    /** A failed call leaves nothing of its own in the map. */
    method RemoveSender(r: P.Req)
      requires Valid() && P.Enabled(State(), P.Leave(r))
      modifies this
      ensures Valid() && State() == P.Next(old(State()), P.Leave(r))
      ensures State().At(r, P.Done(P.Failed(old(requests)[r].stage.why)))
      ensures requests[r].oid == old(requests)[r].oid && pending == old(pending) - {requests[r].oid}
    {
      S.StepKeepsInvariant(State(), P.Leave(r));
      pending := pending - {requests[r].oid};
      SetStage(r, P.Done(P.Failed(requests[r].stage.why)));
    }

    // close

    /** The flag, then the signal: whoever calls after that is turned away. */
    method Close()
      requires Valid() && handles
      modifies this
      ensures Valid() && State() == P.Next(P.Next(old(State()), P.CloseMark), P.CloseSignal)
      ensures closed && shutdown && requests == old(requests) && pending == old(pending)
      ensures forall r, oid | P.Enabled(State(), P.Start(r, oid)) ::
        P.Next(State(), P.Start(r, oid)).At(r, P.Done(P.Failed(P.ClientClosed)))
    {
      Perform(P.CloseMark);
      Perform(P.CloseSignal);
    }

    // the writer task

    /** The frame taken is the next one after those already written. */
    method WriterRecv() returns (frame: P.Req)
      requires Valid() && P.Enabled(State(), P.WriterRecv)
      modifies this
      ensures Valid() && State() == P.Next(old(State()), P.WriterRecv)
      ensures |written| < |enqueued| && frame == enqueued[|written|] && frame !in written
    {
      S.StepKeepsInvariant(State(), P.WriterRecv);
      frame := outbound[0];
      writer := P.Holding(frame);
      outbound := outbound[1..];
      NextFrame(State(), frame);
    }

    /** A frame is written once, after all that were enqueued before it. */
    method WriterSend(ok: bool)
      requires Valid() && P.Enabled(State(), P.WriterSend(ok))
      modifies this
      ensures Valid() && State() == P.Next(old(State()), P.WriterSend(ok))
      ensures written == if ok then enqueued[..|old(written)| + 1] else old(written)
    {
      S.StepKeepsInvariant(State(), P.WriterSend(ok));
      NextFrame(State(), writer.frame);
      if ok {
        written := written + [writer.frame];
        writer := P.Ready;
      } else {
        writer := P.WriterStopping;
      }
    }

    // the reader task

    /** The ack goes to the one request pending under its client id, if there is one. */
    method RouteAck(oid: P.Oid, body: string)
      requires Valid() && P.Enabled(State(), P.ReaderAck(oid, body))
      modifies this
      ensures Valid() && State() == P.Next(old(State()), P.ReaderAck(oid, body))
      ensures oid !in old(pending) ==> State() == old(State())
      ensures oid in old(pending) ==>
        var r := old(pending)[oid];
        && r in old(requests) && r in requests && oid !in pending
        && (R.Receiving(old(requests)[r].stage) ==> requests[r].inbox == Some(P.ServerAck(oid, body)))
      ensures requests.Keys == old(requests).Keys
      ensures forall q :: q in requests ==>
        requests[q] == old(requests)[q] || (old(requests)[q].oid == oid && old(State()).SenderPending(q))
    {
      S.StepKeepsInvariant(State(), P.ReaderAck(oid, body));
      AckStep(State(), oid, body);
      if oid in pending {
        R.ReaderAckDelivers(State(), oid, body);
      }
      if oid in pending {
        var r := pending[oid];
        pending := pending - {oid};
        requests := requests[r := requests[r].Delivered(P.ServerAck(oid, body))];
      }
    }

    method Drain()
      requires Valid() && P.Enabled(State(), P.ReaderDrain)
      modifies this
      ensures Valid() && State() == P.Next(old(State()), P.ReaderDrain)
    {
      S.StepKeepsInvariant(State(), P.ReaderDrain);
      AnswerPending();
      reader := P.Drained;
    }

    /** Every sender left in the map sends the closing answer, in whatever order the map
    yields them. */
    method AnswerPending()
      requires P.PendingOwned(State())
      modifies `pending, `requests
      ensures pending == map[] && requests == P.DrainedRequests(old(State()))
    {
      ghost var before := State();
      while pending != map[]
        invariant DrainedExcept(before, pending, requests)
        decreases |pending|
      {
        EmptyOrHasKey(pending);
        var oid :| oid in pending;
        DrainOne(before, pending, requests, oid);
        SizeWithout(pending, oid);
        requests := requests[pending[oid] := requests[pending[oid]].Delivered(P.ConnectionClosed)];
        pending := pending - {oid};
      }
      DrainedAll(before, requests);
    }

    // whole runs

    /** Every step of the transition system is what the shared state really goes through. */
    method Perform(step: P.Step)
      requires Valid() && P.Enabled(State(), step)
      modifies this
      ensures Valid() && State() == P.Next(old(State()), step)
    {
      match step
      case Start(r, oid) => var _ := CheckOpen(r, oid);
      case Insert(r) => InsertSender(r);
      case TrySend(r) => var _ := TrySend(r);
      case TakeAck(r) => var _ := Await(r);
      case TimeOut(r) => var _ := Await(r);
      case LoseChannel(r) => P.ChannelNeverLost(State(), r); assert false;
      case Leave(r) => RemoveSender(r);
      case WriterRecv => var _ := WriterRecv();
      case WriterSend(ok) => WriterSend(ok);
      case ReaderAck(oid, body) => RouteAck(oid, body);
      case ReaderDrain => Drain();
      case _ => SetFlags(step);
    }

    /** The steps that only move a flag or a task on towards its end. */
    method SetFlags(step: P.Step)
      requires Valid() && P.Enabled(State(), step) && S.Subject(step).None?
      requires !step.WriterRecv? && !step.WriterSend? && !step.ReaderAck? && !step.ReaderDrain?
      modifies this
      ensures Valid() && State() == P.Next(old(State()), step)
    {
      S.StepKeepsInvariant(State(), step);
      match step
      case CloseMark => closed := true;
      case CloseSignal => shutdown := true;
      case DropHandles => handles := false;
      case WriterBreak => writer := P.WriterStopping;
      case WriterMark => writer, closed := P.WriterMarked, true;
      case WriterSignal => writer, shutdown := P.WriterSignalled, true;
      case WriterExit => writer, outbound := P.WriterDone, [];
      case ReaderBreak => reader := P.ReaderStopping;
      case ReaderMark => reader, closed := P.ReaderMarked, true;
      case ReaderSignal => reader, shutdown := P.ReaderSignalled, true;
    }

    /** What the other parties do meanwhile: of the steps given, those that are possible
    when their turn comes and are not the caller's own. */
    method Others(r: P.Req, steps: seq<P.Step>)
      requires Valid() && r in requests
      modifies this
      ensures Valid() && r in requests
      ensures requests[r].stage == old(requests)[r].stage && requests[r].oid == old(requests)[r].oid
      ensures AnswerFrom(old(requests)[r].inbox, requests[r].inbox, steps)
    {
      ghost var stage, oid, inbox := requests[r].stage, requests[r].oid, requests[r].inbox;
      for i := 0 to |steps|
        invariant Valid() && r in requests && requests[r].stage == stage && requests[r].oid == oid
        invariant AnswerFrom(inbox, requests[r].inbox, steps)
      {
        if S.Subject(steps[i]) != Some(r) && Possible(steps[i]) {
          S.OthersStay(State(), steps[i], r);
          R.StepInbox(State(), steps[i], r);
          assert steps[i] in steps;
          Perform(steps[i]);
        }
      }
    }

    predicate Possible(step: P.Step)
      reads this
      ensures Possible(step) <==> P.Enabled(State(), step)
    {
      P.Enabled(P.State(requests, pending, outbound, closed, shutdown, handles, writer, reader, [], []), step)
    }

    /** From the closed check to the queue. */
    method Submit(r: P.Req, before: seq<P.Step>, between: seq<P.Step>) returns (refused: Option<P.Failure>)
      requires Valid() && State().At(r, P.Checked)
      modifies this
      ensures Valid() && r in requests && requests[r].oid == old(requests)[r].oid
      ensures refused.None? ==> requests[r].stage == P.Waiting
      ensures refused.Some? ==> requests[r].stage == P.Leaving(refused.value)
      ensures refused.Some? ==> refused.value.QueueFull? || refused.value.WriterGone?
      ensures AnswerFrom(None, requests[r].inbox, between)
    {
      Others(r, before);
      InsertSender(r);
      Others(r, between);
      refused := TrySend(r);
    }

    method Fail(r: P.Req, why: P.Failure, before: seq<P.Step>)
      requires Valid() && State().At(r, P.Leaving(why))
      modifies this
      ensures Valid() && State().At(r, P.Done(P.Failed(why)))
      ensures requests[r].oid == old(requests)[r].oid && requests[r].oid !in pending
    {
      Others(r, before);
      RemoveSender(r);
    }

    /** From the queue to the answer or the deadline. */
    method AwaitAck(r: P.Req, before: seq<P.Step>, between: seq<P.Step>) returns (result: P.Result)
      requires Valid() && State().At(r, P.Waiting)
      modifies this
      ensures Valid() && State().At(r, P.Done(result))
      ensures requests[r].oid == old(requests)[r].oid && requests[r].oid !in pending
      ensures result.Acked? ==> result.ack.ConnectionClosed? || result.ack.oid == requests[r].oid
      ensures result.Failed? ==> result.why == P.TimedOut
      ensures result.Acked? ==> AnswerFrom(old(requests)[r].inbox, Some(result.ack), before)
    {
      Others(r, before);
      var ack := Await(r);
      if ack.Some? {
        result := P.Acked(ack.value);
      } else {
        Fail(r, P.TimedOut, between);
        result := P.Failed(P.TimedOut);
      }
    }

    /** A whole call, with any steps of the other parties between its own actions. */
    method SendAndAwait(r: P.Req, oid: P.Oid, others: nat -> seq<P.Step>) returns (result: P.Result)
      requires Valid() && P.Enabled(State(), P.Start(r, oid))
      modifies this
      ensures Valid() && State().At(r, P.Done(result)) && oid !in pending
      ensures result == P.Failed(P.ClientClosed) <==> old(closed)
      ensures result.Acked? ==> result.ack.ConnectionClosed? || result.ack.oid == oid
      ensures result.Acked? && result.ack.ServerAck? ==>
        P.ReaderAck(oid, result.ack.body) in others(1) || P.ReaderAck(oid, result.ack.body) in others(2)
      ensures result != P.Failed(P.ChannelClosed)
      ensures r in enqueued <==> result.Acked? || result == P.Failed(P.TimedOut)
    {
      var admitted := CheckOpen(r, oid);
      if !admitted {
        return P.Failed(P.ClientClosed);
      }
      var refused := Submit(r, others(0), others(1));
      if refused.Some? {
        Fail(r, refused.value, others(2));
        result := P.Failed(refused.value);
      } else {
        result := AwaitAck(r, others(2), others(3));
      }
      assert r in enqueued <==> S.PastQueue(State(), r);
    }
  }

  /** An inbox after the steps of other parties: as it was, or closed by the drain, or
  exactly a frame that the reader was given. */
  ghost predicate AnswerFrom(before: Option<P.Ack>, after: Option<P.Ack>, steps: seq<P.Step>) {
    || after == before
    || after == Some(P.ConnectionClosed)
    || (after.Some? && P.ReaderAck(after.value.oid, after.value.body) in steps)
  }

  /** All pending senders have answered, but those still in `left`. */
  ghost predicate DrainedExcept(before: P.State, left: map<P.Oid, P.Req>, requests: map<P.Req, P.Request>) {
    && (forall oid :: oid in left ==> oid in before.pending && left[oid] == before.pending[oid])
    && requests.Keys == before.requests.Keys
    && forall q :: q in requests ==>
         requests[q] == if before.SenderPending(q) && before.requests[q].oid !in left
                        then before.requests[q].Delivered(P.ConnectionClosed)
                        else before.requests[q]
  }

  lemma DrainOne(before: P.State, left: map<P.Oid, P.Req>, requests: map<P.Req, P.Request>, oid: P.Oid)
    requires P.PendingOwned(before) && DrainedExcept(before, left, requests) && oid in left
    ensures left[oid] in requests
    ensures DrainedExcept(before, left - {oid},
                          requests[left[oid] := requests[left[oid]].Delivered(P.ConnectionClosed)])
  {
    var r := left[oid];
    assert before.requests[r].oid == oid && before.SenderPending(r);
  }

  lemma DrainedAll(before: P.State, requests: map<P.Req, P.Request>)
    requires DrainedExcept(before, map[], requests)
    ensures requests == P.DrainedRequests(before)
  {
  }

  /** The frame that the writer holds follows those already written. */
  lemma NextFrame(s: P.State, frame: P.Req)
    requires S.Invariant(s) && s.writer == P.Holding(frame)
    ensures |s.written| < |s.enqueued| && frame == s.enqueued[|s.written|] && frame !in s.written
    ensures s.enqueued[..|s.written| + 1] == s.written + [frame]
  {
    assert s.enqueued == s.written + [frame] + s.queue;
    assert s.enqueued[|s.written|] == frame;
    forall i | 0 <= i < |s.written| ensures s.written[i] != frame {
      assert s.enqueued[i] == s.written[i];
    }
  }

  lemma AnsweredIsNotPending(s: P.State, r: P.Req)
    requires P.Tables(s) && s.At(r, P.Waiting) && s.requests[r].inbox.Some?
    ensures s.requests[r].oid !in s.pending
  {
    var oid := s.requests[r].oid;
    if oid in s.pending {
      var q := s.pending[oid];
      assert s.requests[q].oid == oid && s.requests[q].inbox.None?;
      assert s.Flying(r) && s.Flying(q);
    }
  }

  lemma AckStep(s: P.State, oid: P.Oid, body: string)
    requires P.Tables(s) && P.Enabled(s, P.ReaderAck(oid, body))
    ensures oid !in s.pending ==> P.Next(s, P.ReaderAck(oid, body)) == s
    ensures oid in s.pending ==> var r := s.pending[oid];
      && r in s.requests && s.SenderPending(r) && s.requests[r].oid == oid
      && P.Next(s, P.ReaderAck(oid, body)) ==
           s.(pending := s.pending - {oid},
              requests := s.requests[r := s.requests[r].Delivered(P.ServerAck(oid, body))])
  {
    assert oid !in s.pending ==> s.pending - {oid} == s.pending;
  }
}
