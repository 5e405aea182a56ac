/** What callers of the order client can rely on, over every run from a fresh connection. */
module OrderResults {
  import opened Options
  import opened OrderProtocol
  import opened OrderSafety

  /** A waiting request's sender is in the pending map, or it has been consumed by a
  delivered ack: never both, never neither. So no request ever sees its response
  channel closed. */
  lemma OneshotIsLinear(steps: seq<Step>, t: State, r: Req)
    requires Reaches(CONNECTED, steps, t) && r in t.requests
    ensures t.requests[r].stage.Waiting? ==> (t.SenderPending(r) <==> t.requests[r].inbox.None?)
    ensures !Enabled(t, LoseChannel(r))
    ensures t.requests[r].stage != Done(Failed(ChannelClosed))
  {
    ReachableInvariant(steps, t);
    ChannelNeverLost(t, r);
    assert Routed(t.requests[r]);
    if t.requests[r].stage.Waiting? && t.requests[r].inbox.None? {
      assert Receiving(t.requests[r].stage);
    }
  }

  /** An ack that a call returns names the caller's own client id, or is the closing answer. */
  lemma AckIsOwn(steps: seq<Step>, t: State, r: Req, ack: Ack)
    requires Reaches(CONNECTED, steps, t) && t.At(r, Done(Acked(ack)))
    ensures ack.ConnectionClosed? || ack.oid == t.requests[r].oid
  {
    ReachableInvariant(steps, t);
    assert Routed(t.requests[r]);
  }

  lemma PendingIsFlying(t: State, oid: Oid)
    requires PendingOwned(t) && oid in t.pending
    ensures t.Flying(t.pending[oid])
  {
  }

  /** With no request in flight the pending map is empty. */
  lemma IdleClientHoldsNothing(steps: seq<Step>, t: State)
    requires Reaches(CONNECTED, steps, t)
    requires forall r :: r in t.requests ==> !t.requests[r].InFlight()
    ensures t.pending == map[]
  {
    ReachableInvariant(steps, t);
    forall oid | oid in t.pending ensures t.Flying(t.pending[oid]) {
      PendingIsFlying(t, oid);
    }
    assert t.pending.Keys == {};
  }

  /** The queue stays bounded; frames are written in enqueue order, each at most once;
  the frame of a request that failed as closed, full or writer-gone is never written. */
  lemma FramesAreSound(steps: seq<Step>, t: State)
    requires Reaches(CONNECTED, steps, t)
    ensures |t.queue| <= 256
    ensures t.written <= t.enqueued
    ensures NoRepeats(t.written)
    ensures forall r :: r in t.enqueued <==> PastQueue(t, r)
    ensures forall r :: r in t.written ==> PastQueue(t, r)
  {
    ReachableInvariant(steps, t);
    assert t.written <= t.enqueued;
    assert forall i | 0 <= i < |t.written| :: t.written[i] == t.enqueued[i];
  }

  /** A writer between two frames may stop exactly when the shutdown is signalled, or when
  every handle is gone and it has written all that was ever enqueued. */
  lemma WriterMayStopIff(steps: seq<Step>, t: State)
    requires Reaches(CONNECTED, steps, t) && t.writer == Ready
    ensures Enabled(t, WriterBreak) <==> t.shutdown || (!t.handles && t.written == t.enqueued)
  {
    ReachableInvariant(steps, t);
    if t.written == t.enqueued {
      assert |t.enqueued| == |t.written| + |t.queue|;
    } else {
      assert t.written + [] == t.written;
    }
  }

  predicate InLoop(writer: Writer) {
    writer.Ready? || writer.Holding?
  }

  lemma StoppedWriterStep(s: State, step: Step)
    requires Enabled(s, step) && !InLoop(s.writer) && (s.writer.WriterDone? ==> s.queue == [])
    ensures var t := Next(s, step);
      !InLoop(t.writer) && t.written == s.written && (t.writer.WriterDone? ==> t.queue == [])
  {
  }

  /** Once the writer has left its loop nothing more is written, and what is left in the
  queue goes with it. */
  lemma {:induction false} StoppedWriterWritesNothing(s: State, steps: seq<Step>, t: State)
    requires Reaches(s, steps, t) && !InLoop(s.writer) && (s.writer.WriterDone? ==> s.queue == [])
    ensures t.written == s.written && (t.writer.WriterDone? ==> t.queue == [])
    decreases steps
  {
    if steps == [] {
    } else {
      StoppedWriterStep(s, steps[0]);
      StoppedWriterWritesNothing(Next(s, steps[0]), steps[1..], t);
    }
  }

  // Answers

  function InboxOf(s: State, r: Req): Option<Ack> {
    if r in s.requests then s.requests[r].inbox else None
  }

  lemma OnlyReaderAnswers(s: State, step: Step, r: Req)
    requires Enabled(s, step) && !step.ReaderAck? && !step.ReaderDrain?
    ensures InboxOf(Next(s, step), r) == InboxOf(s, r)
  {
  }

  lemma ReaderAnswers(s: State, step: Step, r: Req)
    requires Tables(s) && Enabled(s, step) && (step.ReaderAck? || step.ReaderDrain?)
    ensures InboxOf(Next(s, step), r) == InboxOf(s, r) ||
      (InboxOf(s, r).None? && InboxOf(Next(s, step), r).Some? &&
       InboxOf(Next(s, step), r).value.ConnectionClosed? == step.ReaderDrain?)
  {
  }

  /** One step answers a request at most once, only from the reader, and with a server
  ack only while the reader still reads. */
  lemma StepAnswers(s: State, step: Step, r: Req)
    requires Tables(s) && Enabled(s, step)
    ensures var before, after := InboxOf(s, r), InboxOf(Next(s, step), r);
      && (before.Some? || s.reader.Drained? ==> after == before)
      && (!s.reader.Reading? && after.Some? && after.value.ServerAck? ==> after == before)
  {
    if step.ReaderAck? || step.ReaderDrain? {
      ReaderAnswers(s, step, r);
    } else {
      OnlyReaderAnswers(s, step, r);
    }
  }

  lemma ReaderNeverRestarts(s: State, step: Step)
    requires Enabled(s, step)
    ensures !s.reader.Reading? ==> !Next(s, step).reader.Reading?
    ensures s.reader.Drained? ==> Next(s, step).reader.Drained?
  {
  }

  /** An answer, once delivered, stays; after the drain nobody gets an answer; and once
  the reader has left its loop no server ack is delivered. */
  lemma {:induction false} RunAnswers(s: State, steps: seq<Step>, t: State, r: Req)
    requires Tables(s) && Reaches(s, steps, t)
    ensures InboxOf(s, r).Some? || s.reader.Drained? ==> InboxOf(t, r) == InboxOf(s, r)
    ensures !s.reader.Reading? && InboxOf(t, r).Some? && InboxOf(t, r).value.ServerAck? ==>
      InboxOf(t, r) == InboxOf(s, r)
    decreases steps
  {
    if steps == [] {
    } else {
      var next := Next(s, steps[0]);
      StepKeepsTables(s, steps[0]);
      StepAnswers(s, steps[0], r);
      ReaderNeverRestarts(s, steps[0]);
      RunAnswers(next, steps[1..], t, r);
    }
  }

  /** The stages in which a call still holds the receiving half of its channel: its sender
  is in the map and it has not yet resolved. */
  predicate Receiving(stage: Stage) {
    stage == Inserted || stage == Waiting || stage == Leaving(QueueFull) || stage == Leaving(WriterGone)
  }

  /** What the reader hands over is the frame it read, word for word, to the call that is
  pending under its client id, and to nobody else. */
  lemma ReaderAckDelivers(s: State, oid: Oid, body: string)
    requires Tables(s) && Enabled(s, ReaderAck(oid, body)) && oid in s.pending
    ensures var t, r := Next(s, ReaderAck(oid, body)), s.pending[oid];
      && r in s.requests && oid !in t.pending && t.requests.Keys == s.requests.Keys
      && (Receiving(s.requests[r].stage) ==> t.requests[r].inbox == Some(ServerAck(oid, body)))
      && t.requests[r].stage == s.requests[r].stage && t.requests[r].oid == s.requests[r].oid
      && forall q :: q in s.requests && q != r ==> t.requests[q] == s.requests[q]
  {
  }

  lemma StepInbox(s: State, step: Step, r: Req)
    requires Tables(s) && Enabled(s, step)
    ensures var before, after := InboxOf(s, r), InboxOf(Next(s, step), r);
      || after == before
      || (step == ReaderDrain && after == Some(ConnectionClosed))
      || (step.ReaderAck? && after == Some(ServerAck(step.oid, step.body)))
  {
    if !step.ReaderAck? && !step.ReaderDrain? {
      OnlyReaderAnswers(s, step, r);
    }
  }

  lemma {:induction false} RunInbox(s: State, steps: seq<Step>, t: State, r: Req, oid: Oid, body: string)
    requires Tables(s) && Reaches(s, steps, t) && InboxOf(t, r) == Some(ServerAck(oid, body))
    ensures InboxOf(s, r) == Some(ServerAck(oid, body)) || ReaderAck(oid, body) in steps
    decreases steps
  {
    if steps == [] {
    } else {
      StepKeepsTables(s, steps[0]);
      StepInbox(s, steps[0], r);
      RunInbox(Next(s, steps[0]), steps[1..], t, r, oid, body);
      assert steps[0] in steps && forall step | step in steps[1..] :: step in steps;
    }
  }

  /** Every server ack that a call holds or returns is, word for word, one that the reader
  received in this run. */
  lemma AckWasReceived(steps: seq<Step>, t: State, r: Req, oid: Oid, body: string)
    requires Reaches(CONNECTED, steps, t) && r in t.requests
    requires t.requests[r].inbox == Some(ServerAck(oid, body)) || t.At(r, Done(Acked(ServerAck(oid, body))))
    ensures ReaderAck(oid, body) in steps && oid == t.requests[r].oid
  {
    ReachableInvariant(steps, t);
    assert Routed(t.requests[r]);
    RunInbox(CONNECTED, steps, t, r, oid, body);
  }

  lemma DrainStep(s: State, r: Req)
    requires Tables(s) && Enabled(s, ReaderDrain) && InboxOf(s, r).None?
    ensures InboxOf(Next(s, ReaderDrain), r) ==
      if s.SenderPending(r) && Receiving(s.requests[r].stage) then Some(ConnectionClosed) else None
  {
  }

  /** Of the requests without an answer when the reader drains, exactly those whose sender
  is in the map and whose receiver still exists get the closing answer; the others never
  get any. */
  lemma DrainAnswersIff(before: seq<Step>, s: State, after: seq<Step>, t: State, r: Req)
    requires Reaches(CONNECTED, before, s) && Enabled(s, ReaderDrain) && Reaches(Next(s, ReaderDrain), after, t)
    requires InboxOf(s, r).None?
    ensures InboxOf(t, r) ==
      if s.SenderPending(r) && Receiving(s.requests[r].stage) then Some(ConnectionClosed) else None
  {
    ReachableInvariant(before, s);
    StepKeepsTables(s, ReaderDrain);
    DrainStep(s, r);
    RunAnswers(Next(s, ReaderDrain), after, t, r);
  }

  /** Where a call that holds an answer can be: it still has to enqueue its frame, it is
  about to return the answer, or the queue refused the frame. */
  predicate HoldingAnswer(stage: Stage, ack: Ack) {
    match stage
    case Inserted => true
    case Waiting => true
    case Leaving(why) => why.QueueFull? || why.WriterGone?
    case Done(result) => result == Acked(ack) || result == Failed(QueueFull) || result == Failed(WriterGone)
    case Checked => false
  }

  ghost predicate Answered(s: State, r: Req, ack: Ack) {
    && r in s.requests
    && s.requests[r].inbox == Some(ack)
    && HoldingAnswer(s.requests[r].stage, ack)
  }

  lemma StepKeepsAnswered(s: State, step: Step, r: Req, ack: Ack)
    requires Tables(s) && Enabled(s, step) && Answered(s, r, ack)
    ensures Answered(Next(s, step), r, ack)
  {
    StepAnswers(s, step, r);
    if Subject(step) != Some(r) {
      OthersStay(s, step, r);
    }
  }

  lemma {:induction false} RunKeepsAnswered(s: State, steps: seq<Step>, t: State, r: Req, ack: Ack)
    requires Tables(s) && Reaches(s, steps, t) && Answered(s, r, ack)
    ensures Answered(t, r, ack)
    decreases steps
  {
    if steps == [] {
    } else {
      StepKeepsTables(s, steps[0]);
      StepKeepsAnswered(s, steps[0], r, ack);
      RunKeepsAnswered(Next(s, steps[0]), steps[1..], t, r, ack);
    }
  }

  lemma HeldAtDrain(before: seq<Step>, s: State, after: seq<Step>, t: State, r: Req)
    requires Reaches(CONNECTED, before, s) && Enabled(s, ReaderDrain) && Reaches(Next(s, ReaderDrain), after, t)
    requires InboxOf(s, r).None? && s.SenderPending(r) && Receiving(s.requests[r].stage)
    ensures Answered(t, r, ConnectionClosed)
  {
    ReachableInvariant(before, s);
    StepKeepsTables(s, ReaderDrain);
    DrainStep(s, r);
    OthersStay(s, ReaderDrain, r);
    RunKeepsAnswered(Next(s, ReaderDrain), after, t, r, ConnectionClosed);
  }

  /** What the documented promise of `close` comes to: of the calls without an answer when
  the reader drains, those that return the closing answer are exactly those that had
  their sender in the map and got their frame into the queue. A call with its sender in
  the map can otherwise only report a full queue or a gone writer. */
  lemma ClosingAnswerIff(before: seq<Step>, s: State, after: seq<Step>, t: State, r: Req)
    requires Reaches(CONNECTED, before, s) && Enabled(s, ReaderDrain) && Reaches(Next(s, ReaderDrain), after, t)
    requires InboxOf(s, r).None? && r in t.requests && t.requests[r].stage.Done?
    ensures t.requests[r].stage.result == Acked(ConnectionClosed) <==>
      s.SenderPending(r) && Receiving(s.requests[r].stage) && r in t.enqueued
    ensures s.SenderPending(r) && Receiving(s.requests[r].stage) && r !in t.enqueued ==>
      t.requests[r].stage.result == Failed(QueueFull) || t.requests[r].stage.result == Failed(WriterGone)
  {
    DrainAnswersIff(before, s, after, t, r);
    ReachableInvariant(before, s);
    StepKeepsInvariant(s, ReaderDrain);
    RunKeepsInvariant(Next(s, ReaderDrain), after, t);
    assert Routed(t.requests[r]) && (r in t.enqueued <==> PastQueue(t, r));
    if s.SenderPending(r) && Receiving(s.requests[r].stage) {
      HeldAtDrain(before, s, after, t, r);
    }
  }

  /** In particular every call that was waiting without an answer can only return the
  closing answer. */
  lemma DrainAnswersWaiting(before: seq<Step>, s: State, after: seq<Step>, t: State, r: Req)
    requires Reaches(CONNECTED, before, s) && Enabled(s, ReaderDrain) && Reaches(Next(s, ReaderDrain), after, t)
    requires s.At(r, Waiting) && s.requests[r].inbox.None?
    ensures r in t.requests && t.requests[r].inbox == Some(ConnectionClosed)
    ensures t.requests[r].stage == Waiting || t.requests[r].stage == Done(Acked(ConnectionClosed))
  {
    ReachableInvariant(before, s);
    StepKeepsTables(s, ReaderDrain);
    assert Receiving(s.requests[r].stage) && s.SenderPending(r);
    AnsweredReturnsAnswer(Next(s, ReaderDrain), after, t, r, ConnectionClosed);
  }

  /** A waiting request that holds an answer can only return it. */
  lemma {:induction false} AnsweredReturnsAnswer(s: State, steps: seq<Step>, t: State, r: Req, ack: Ack)
    requires Tables(s) && Reaches(s, steps, t)
    requires r in s.requests && s.requests[r].inbox == Some(ack)
    requires s.requests[r].stage == Waiting || s.requests[r].stage == Done(Acked(ack))
    ensures r in t.requests && t.requests[r].inbox == Some(ack)
    ensures t.requests[r].stage == Waiting || t.requests[r].stage == Done(Acked(ack))
    decreases steps
  {
    if steps == [] {
    } else {
      StepKeepsTables(s, steps[0]);
      StepAnswers(s, steps[0], r);
      if Subject(steps[0]) != Some(r) {
        OthersStay(s, steps[0], r);
      }
      AnsweredReturnsAnswer(Next(s, steps[0]), steps[1..], t, r, ack);
    }
  }

  // What the state at the drain guarantees

  lemma StepThen(s: State, step: Step, rest: seq<Step>, t: State)
    requires Enabled(s, step) && Reaches(Next(s, step), rest, t)
    ensures Reaches(s, [step] + rest, t)
  {
    assert ([step] + rest)[1..] == rest;
  }

  lemma {:induction false} RunsCompose(s: State, first: seq<Step>, mid: State, second: seq<Step>, t: State)
    requires Reaches(s, first, mid) && Reaches(mid, second, t)
    ensures Reaches(s, first + second, t)
    decreases first
  {
    if first == [] {
      assert first + second == second;
    } else {
      RunsCompose(Next(s, first[0]), first[1..], mid, second, t);
      assert (first + second)[1..] == first[1..] + second;
    }
  }

  function StepsToEnd(writer: Writer): nat {
    match writer
    case Holding(_) => 4
    case Ready => 4
    case WriterStopping => 3
    case WriterMarked => 2
    case WriterSignalled => 1
    case WriterDone => 0
  }

  function EndStep(writer: Writer): Step
    requires !writer.WriterDone?
  {
    match writer
    case Holding(_) => WriterSend(false)
    case Ready => WriterBreak
    case WriterStopping => WriterMark
    case WriterMarked => WriterSignal
    case WriterSignalled => WriterExit
  }

  lemma EndStepMoves(s: State)
    requires s.shutdown && !s.writer.WriterDone?
    ensures Enabled(s, EndStep(s.writer))
    ensures var t := Next(s, EndStep(s.writer));
      t.shutdown && t.requests == s.requests && StepsToEnd(t.writer) < StepsToEnd(s.writer)
  {
  }

  /** Once the shutdown is signalled the writer can end before anyone else moves. */
  lemma {:induction false} WriterCanEnd(s: State) returns (steps: seq<Step>, t: State)
    requires s.shutdown
    ensures Reaches(s, steps, t) && t.writer.WriterDone? && t.requests == s.requests
    decreases StepsToEnd(s.writer)
  {
    if s.writer.WriterDone? {
      steps, t := [], s;
    } else {
      var step := EndStep(s.writer);
      EndStepMoves(s);
      steps, t := WriterCanEnd(Next(s, step));
      StepThen(s, step, steps, t);
      steps := [step] + steps;
    }
  }

  lemma LeaveFails(s: State, r: Req, why: Failure)
    requires s.At(r, Leaving(why))
    ensures Enabled(s, Leave(r)) && Reaches(s, [Leave(r)] + [], Next(s, Leave(r)))
    ensures Next(s, Leave(r)).At(r, Done(Failed(why)))
  {
    var t := Next(s, Leave(r));
    assert Reaches(t, [], t);
    StepThen(s, Leave(r), [], t);
  }

  /** With the writer gone, a frame not yet enqueued is refused. */
  lemma RefusalFails(s: State, r: Req) returns (steps: seq<Step>, t: State)
    requires s.writer.WriterDone? && (s.At(r, Checked) || s.At(r, Inserted))
    ensures Reaches(s, steps, t) && t.At(r, Done(Failed(WriterGone)))
    decreases s.At(r, Checked)
  {
    if s.At(r, Inserted) {
      var refused := Next(s, TrySend(r));
      LeaveFails(refused, r, WriterGone);
      t := Next(refused, Leave(r));
      StepThen(s, TrySend(r), [Leave(r)] + [], t);
      steps := [TrySend(r)] + ([Leave(r)] + []);
    } else {
      var inserted := Next(s, Insert(r));
      steps, t := RefusalFails(inserted, r);
      StepThen(s, Insert(r), steps, t);
      steps := [Insert(r)] + steps;
    }
  }

  /** A request in flight at the drain that is not yet waiting can still end in a failure. */
  lemma UnqueuedCanFail(before: seq<Step>, s: State, r: Req) returns (after: seq<Step>, t: State, why: Failure)
    requires Reaches(CONNECTED, before, s) && Enabled(s, ReaderDrain)
    requires s.Flying(r) && !s.At(r, Waiting)
    ensures Reaches(Next(s, ReaderDrain), after, t) && t.At(r, Done(Failed(why)))
    ensures s.At(r, Checked) || s.At(r, Inserted) ==> why == WriterGone
  {
    var drained := Next(s, ReaderDrain);
    ReachableInvariant(before, s);
    OthersStay(s, ReaderDrain, r);
    if s.requests[r].stage.Leaving? {
      why := s.requests[r].stage.why;
      LeaveFails(drained, r, why);
      after, t := [Leave(r)] + [], Next(drained, Leave(r));
    } else {
      why := WriterGone;
      var ended, mid := WriterCanEnd(drained);
      var rest;
      rest, t := RefusalFails(mid, r);
      RunsCompose(drained, ended, mid, rest, t);
      after := ended + rest;
    }
  }

  /** Every run from the drain in which the call of `r` finishes gives it the closing answer. */
  ghost predicate ClosingGuaranteed(s: State, r: Req)
    requires Enabled(s, ReaderDrain)
  {
    forall after, t | Reaches(Next(s, ReaderDrain), after, t) ::
      r in t.requests && t.requests[r].stage.Done? ==> t.requests[r].stage.result == Acked(ConnectionClosed)
  }

  /** Of the calls in flight and unanswered at the drain, exactly those that wait there are
  guaranteed the closing answer, and those can return it at once. */
  lemma ClosingGuaranteedIff(before: seq<Step>, s: State, r: Req)
    requires Reaches(CONNECTED, before, s) && Enabled(s, ReaderDrain)
    requires s.Flying(r) && InboxOf(s, r).None?
    ensures ClosingGuaranteed(s, r) <==> s.At(r, Waiting)
    ensures s.At(r, Waiting) ==> Enabled(Next(s, ReaderDrain), TakeAck(r))
  {
    if s.At(r, Waiting) {
      forall after, t | Reaches(Next(s, ReaderDrain), after, t)
        ensures r in t.requests && t.requests[r].stage.Done? ==>
          t.requests[r].stage.result == Acked(ConnectionClosed)
      {
        DrainAnswersWaiting(before, s, after, t, r);
      }
      assert Reaches(Next(s, ReaderDrain), [], Next(s, ReaderDrain));
      DrainAnswersWaiting(before, s, [], Next(s, ReaderDrain), r);
      OthersStay(s, ReaderDrain, r);
    } else {
      var after, t, why := UnqueuedCanFail(before, s, r);
      assert t.requests[r].stage.result == Failed(why);
    }
  }

  // The race with the drain

  /** A request that is unanswered once the reader has drained is never acked. */
  lemma LateRequestIsNeverAcked(before: seq<Step>, s: State, after: seq<Step>, t: State, r: Req)
    requires Reaches(CONNECTED, before, s) && s.reader.Drained? && Reaches(s, after, t)
    requires InboxOf(s, r).None? && r in t.requests
    ensures t.requests[r].inbox.None?
    ensures t.requests[r].stage.Done? ==> t.requests[r].stage.result.Failed?
  {
    ReachableInvariant(before, s);
    RunAnswers(s, after, t, r);
    RunKeepsInvariant(s, after, t);
    assert Routed(t.requests[r]);
  }

  /** Such a request, once waiting, waits until its own timeout fires. */
  lemma {:induction false} OnlyTimeoutResolves(s: State, steps: seq<Step>, t: State, r: Req)
    requires Invariant(s) && s.reader.Drained? && Reaches(s, steps, t)
    requires s.At(r, Waiting) && s.requests[r].inbox.None? && TimeOut(r) !in steps
    ensures t.At(r, Waiting) && t.requests[r].inbox.None? && t.SenderPending(r)
    decreases steps
  {
    if steps == [] {
      assert Receiving(s.requests[r].stage);
    } else {
      StepKeepsInvariant(s, steps[0]);
      StepAnswers(s, steps[0], r);
      ReaderNeverRestarts(s, steps[0]);
      ChannelNeverLost(s, r);
      assert steps[0] in steps;
      if Subject(steps[0]) != Some(r) {
        OthersStay(s, steps[0], r);
      }
      OnlyTimeoutResolves(Next(s, steps[0]), steps[1..], t, r);
    }
  }

  lemma StepTurnsAway(s: State, step: Step, r: Req)
    requires s.closed && Enabled(s, step)
    requires r in s.requests ==> s.requests[r].stage == Done(Failed(ClientClosed))
    ensures Next(s, step).closed
    ensures r in Next(s, step).requests ==> Next(s, step).requests[r].stage == Done(Failed(ClientClosed))
  {
    if r in s.requests && Subject(step) != Some(r) {
      OthersStay(s, step, r);
    }
  }

  /** Once the client is closed, by whichever party, it stays closed, and whoever first
  asks after that is turned away. */
  lemma {:induction false} NewcomersAreTurnedAway(s: State, steps: seq<Step>, t: State, r: Req)
    requires s.closed && Reaches(s, steps, t) && r in t.requests
    requires r in s.requests ==> s.requests[r].stage == Done(Failed(ClientClosed))
    ensures t.closed && t.requests[r].stage == Done(Failed(ClientClosed))
    decreases steps
  {
    if steps == [] {
    } else {
      StepTurnsAway(s, steps[0], r);
      NewcomersAreTurnedAway(Next(s, steps[0]), steps[1..], t, r);
    }
  }

  const ADMITTED := CONNECTED.(requests := map[0 := Request("oid", Checked, None)])
  const CLOSED := ADMITTED.(closed := true, shutdown := true)
  const TORN_DOWN := CLOSED.(reader := Drained)
  const STRANDED := TORN_DOWN.(requests := map[0 := Request("oid", Waiting, None)],
                              pending := map["oid" := 0], queue := [0], enqueued := [0])

  /** A requester passes the closed check; then the client is closed. */
  lemma CloseAfterCheck()
    ensures Reaches(CONNECTED, [Start(0, "oid")] + ([CloseMark] + ([CloseSignal] + [])), CLOSED)
  {
    assert Reaches(CLOSED, [], CLOSED);
    StepThen(ADMITTED.(closed := true), CloseSignal, [], CLOSED);
    StepThen(ADMITTED, CloseMark, [CloseSignal] + [], CLOSED);
    StepThen(CONNECTED, Start(0, "oid"), [CloseMark] + ([CloseSignal] + []), CLOSED);
  }

  lemma DrainOfNothing()
    ensures Reaches(CLOSED.(reader := ReaderMarked), [ReaderSignal] + ([ReaderDrain] + []), TORN_DOWN)
  {
    var signalled := CLOSED.(reader := ReaderSignalled);
    assert DrainedRequests(signalled) == CLOSED.requests;
    assert Next(signalled, ReaderDrain) == TORN_DOWN;
    assert Reaches(TORN_DOWN, [], TORN_DOWN);
    StepThen(signalled, ReaderDrain, [], TORN_DOWN);
    StepThen(CLOSED.(reader := ReaderMarked), ReaderSignal, [ReaderDrain] + [], TORN_DOWN);
  }

  /** The reader sees the shutdown and drains, with nothing pending. */
  lemma ReaderDrains()
    ensures Reaches(CLOSED, [ReaderBreak] + ([ReaderMark] + ([ReaderSignal] + ([ReaderDrain] + []))), TORN_DOWN)
  {
    DrainOfNothing();
    StepThen(CLOSED.(reader := ReaderStopping), ReaderMark, [ReaderSignal] + ([ReaderDrain] + []), TORN_DOWN);
    StepThen(CLOSED, ReaderBreak, [ReaderMark] + ([ReaderSignal] + ([ReaderDrain] + [])), TORN_DOWN);
  }

  /** The race is real: that requester can still insert and enqueue, and is then left
  waiting, with no answer, on a closed connection whose reader has drained. */
  lemma LateInsertIsReachable()
    ensures exists steps :: Reaches(CONNECTED, steps, STRANDED)
    ensures STRANDED.At(0, Waiting) && STRANDED.requests[0].inbox.None? && STRANDED.reader.Drained? && STRANDED.closed
  {
    var close := [Start(0, "oid")] + ([CloseMark] + ([CloseSignal] + []));
    var drain := [ReaderBreak] + ([ReaderMark] + ([ReaderSignal] + ([ReaderDrain] + [])));
    CloseAfterCheck();
    ReaderDrains();
    RunsCompose(CONNECTED, close, CLOSED, drain, TORN_DOWN);
    LateInsert();
    RunsCompose(CONNECTED, close + drain, TORN_DOWN, [Insert(0)] + ([TrySend(0)] + []), STRANDED);
  }

  lemma LateInsert()
    ensures Reaches(TORN_DOWN, [Insert(0)] + ([TrySend(0)] + []), STRANDED)
  {
    var inserted := TORN_DOWN.(requests := map[0 := Request("oid", Inserted, None)], pending := map["oid" := 0]);
    assert Reaches(STRANDED, [], STRANDED);
    StepThen(inserted, TrySend(0), [], STRANDED);
    StepThen(TORN_DOWN, Insert(0), [TrySend(0)] + [], STRANDED);
  }
}
