/** What the order client keeps over every interleaving. */
module OrderSafety {
  import opened Options
  import opened OrderProtocol

  // Frames

  predicate NotSent(why: Failure) {
    why.ClientClosed? || why.QueueFull? || why.WriterGone?
  }

  /** Stages in which the frame of a request cannot have entered the queue. */
  predicate NeverEnqueued(stage: Stage) {
    match stage
    case Checked => true
    case Inserted => true
    case Waiting => false
    case Leaving(why) => NotSent(why)
    case Done(result) => result.Failed? && NotSent(result.why)
  }

  ghost predicate NoRepeats(frames: seq<Req>) {
    forall i, j :: 0 <= i < j < |frames| ==> frames[i] != frames[j]
  }

  /** Frames reach the socket in the order they were enqueued; none is skipped while the
  writer runs. */
  ghost predicate FramesInOrder(s: State) {
    && |s.queue| <= OUTBOUND_QUEUE_CAPACITY
    && match s.writer
       case Ready => s.enqueued == s.written + s.queue
       case Holding(frame) => s.enqueued == s.written + [frame] + s.queue
       case _ => s.written <= s.enqueued
  }

  /** A frame has entered the queue exactly if its request got past `try_send`. */
  predicate PastQueue(s: State, r: Req) {
    r in s.requests && !NeverEnqueued(s.requests[r].stage)
  }

  /** No frame enters twice, and the stage of a request tells whether its frame has. */
  ghost predicate FramesOwned(s: State) {
    NoRepeats(s.enqueued) && forall r :: r in s.enqueued <==> PastQueue(s, r)
  }

  /** A task that has marked or signalled its end has set the shared flags. */
  ghost predicate FlagsSet(s: State) {
    && (s.writer.WriterMarked? || s.writer.WriterSignalled? || s.writer.WriterDone? ==> s.closed)
    && (s.reader.ReaderMarked? || s.reader.ReaderSignalled? || s.reader.Drained? ==> s.closed)
    && (s.writer.WriterSignalled? || s.writer.WriterDone? || s.reader.ReaderSignalled? || s.reader.Drained? ==>
          s.shutdown)
  }

  ghost predicate Invariant(s: State) {
    Tables(s) && FramesInOrder(s) && FramesOwned(s) && FlagsSet(s)
  }

  lemma TrySendKeepsFrames(s: State, r: Req)
    requires FramesInOrder(s) && Enabled(s, TrySend(r))
    ensures FramesInOrder(Next(s, TrySend(r)))
  {
    if !s.writer.WriterDone? && |s.queue| < OUTBOUND_QUEUE_CAPACITY {
      match s.writer
      case Ready =>
        assert s.written + s.queue + [r] == s.written + (s.queue + [r]);
      case Holding(frame) =>
        assert s.written + [frame] + s.queue + [r] == s.written + [frame] + (s.queue + [r]);
      case _ =>
    }
  }

  lemma WriterKeepsFrames(s: State, step: Step)
    requires FramesInOrder(s) && Enabled(s, step) && (step.WriterRecv? || step.WriterSend?)
    ensures FramesInOrder(Next(s, step))
  {
    if step.WriterRecv? {
      assert s.queue == [s.queue[0]] + s.queue[1..];
      assert s.written + s.queue == s.written + [s.queue[0]] + s.queue[1..];
    }
  }

  lemma StepKeepsFrames(s: State, step: Step)
    requires FramesInOrder(s) && Enabled(s, step)
    ensures FramesInOrder(Next(s, step))
  {
    match step
    case TrySend(r) => TrySendKeepsFrames(s, r);
    case WriterRecv => WriterKeepsFrames(s, step);
    case WriterSend(_) => WriterKeepsFrames(s, step);
    case _ => OthersKeepFrames(s, step);
  }

  lemma OthersKeepFrames(s: State, step: Step)
    requires FramesInOrder(s) && Enabled(s, step) && !step.TrySend? && !step.WriterRecv? && !step.WriterSend?
    ensures FramesInOrder(Next(s, step))
  {
    var t := Next(s, step);
    assert t.enqueued == s.enqueued && t.written == s.written;
    assert t.queue == s.queue || (t.queue == [] && t.writer.WriterDone?);
  }

  /** The request whose stage a step may change. */
  function Subject(step: Step): Option<Req> {
    match step
    case Start(r, _) => Some(r)
    case Insert(r) => Some(r)
    case TrySend(r) => Some(r)
    case TakeAck(r) => Some(r)
    case LoseChannel(r) => Some(r)
    case TimeOut(r) => Some(r)
    case Leave(r) => Some(r)
    case _ => None
  }

  lemma OthersStay(s: State, step: Step, q: Req)
    requires Enabled(s, step) && q in s.requests && Subject(step) != Some(q)
    ensures q in Next(s, step).requests && Next(s, step).requests[q].stage == s.requests[q].stage
    ensures Next(s, step).requests[q].oid == s.requests[q].oid
  {
    if !step.ReaderAck? && !step.ReaderDrain? {
      OthersUntouched(s, step, q);
    }
  }

  lemma OthersUntouched(s: State, step: Step, q: Req)
    requires Enabled(s, step) && !step.ReaderAck? && !step.ReaderDrain?
    requires q in s.requests && Subject(step) != Some(q)
    ensures q in Next(s, step).requests && Next(s, step).requests[q] == s.requests[q]
  {
    match step
    case Start(_, _) =>
    case Insert(_) =>
    case TrySend(_) =>
    case _ =>
  }

  lemma OnlyTrySendPasses(s: State, step: Step, r: Req)
    requires Enabled(s, step) && step != TrySend(r)
    ensures PastQueue(Next(s, step), r) <==> PastQueue(s, r)
  {
    if r in s.requests && Subject(step) != Some(r) {
      OthersStay(s, step, r);
    }
  }

  lemma TrySendEnqueues(s: State, r: Req, t: State)
    requires Enabled(s, TrySend(r)) && t == Next(s, TrySend(r))
    ensures !PastQueue(s, r)
    ensures t.enqueued == if PastQueue(t, r) then s.enqueued + [r] else s.enqueued
  {
  }

  lemma OwnersAfterTrySend(s: State, r: Req, t: State)
    requires FramesOwned(s) && !PastQueue(s, r)
    requires t.enqueued == if PastQueue(t, r) then s.enqueued + [r] else s.enqueued
    requires forall q :: q != r ==> (PastQueue(t, q) <==> PastQueue(s, q))
    ensures FramesOwned(t)
  {
    assert r !in s.enqueued;
  }

  lemma TrySendKeepsOwners(s: State, r: Req)
    requires FramesOwned(s) && Enabled(s, TrySend(r))
    ensures FramesOwned(Next(s, TrySend(r)))
  {
    var t := Next(s, TrySend(r));
    TrySendEnqueues(s, r, t);
    forall q | q != r ensures PastQueue(t, q) <==> PastQueue(s, q) {
      OnlyTrySendPasses(s, TrySend(r), q);
    }
    OwnersAfterTrySend(s, r, t);
  }

  lemma StepKeepsOwners(s: State, step: Step)
    requires FramesOwned(s) && Enabled(s, step)
    ensures FramesOwned(Next(s, step))
  {
    if step.TrySend? {
      TrySendKeepsOwners(s, step.r);
    } else {
      OnlyTrySendEnqueues(s, step);
      forall r ensures r in s.enqueued <==> PastQueue(Next(s, step), r) {
        OnlyTrySendPasses(s, step, r);
      }
    }
  }

  lemma OnlyTrySendEnqueues(s: State, step: Step)
    requires Enabled(s, step) && !step.TrySend?
    ensures Next(s, step).enqueued == s.enqueued
  {
  }

  lemma StepKeepsInvariant(s: State, step: Step)
    requires Invariant(s) && Enabled(s, step)
    ensures Invariant(Next(s, step))
  {
    StepKeepsTables(s, step);
    StepKeepsFrames(s, step);
    StepKeepsOwners(s, step);
    StepKeepsFlags(s, step);
  }

  lemma StepKeepsFlags(s: State, step: Step)
    requires FlagsSet(s) && Enabled(s, step)
    ensures FlagsSet(Next(s, step))
  {
    var t := Next(s, step);
    assert t.closed || t.closed == s.closed;
    assert t.shutdown || t.shutdown == s.shutdown;
  }

  lemma {:induction false} RunKeepsInvariant(s: State, steps: seq<Step>, t: State)
    requires Invariant(s) && Reaches(s, steps, t)
    ensures Invariant(t)
    decreases steps
  {
    if steps == [] {
    } else {
      StepKeepsInvariant(s, steps[0]);
      RunKeepsInvariant(Next(s, steps[0]), steps[1..], t);
    }
  }

  lemma ReachableInvariant(steps: seq<Step>, t: State)
    requires Reaches(CONNECTED, steps, t)
    ensures Invariant(t)
  {
    RunKeepsInvariant(CONNECTED, steps, t);
  }
}
