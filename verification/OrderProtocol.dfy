/** The WebSocket order client as a transition system: requesters, a writer task
and a reader task that share the pending map, the outbound queue, the `closed`
flag and the shutdown signal. One step is one atomic action of one party.

A request is identified by a number, which stands for its oneshot channel and for
its frame. In-flight client ids are distinct, and request futures run to completion. */
module OrderProtocol {
  import opened Options

  const OUTBOUND_QUEUE_CAPACITY: nat := 256

  type Oid = string
  type Req = nat

  /** What a oneshot delivers: a server frame, or the reader's closing answer. */
  datatype Ack = ServerAck(oid: Oid, body: string) | ConnectionClosed

  datatype Failure = ClientClosed | QueueFull | WriterGone | ChannelClosed | TimedOut

  datatype Result = Acked(ack: Ack) | Failed(why: Failure)

  /** `Leaving` is between a failure and the removal of the pending entry. */
  datatype Stage =
    | Checked
    | Inserted
    | Waiting
    | Leaving(why: Failure)
    | Done(result: Result)

  datatype Request = Request(oid: Oid, stage: Stage, inbox: Option<Ack>) {
    predicate InFlight() {
      !stage.Done?
    }

    /** The receiving half of the oneshot still exists. */
    predicate Listening() {
      stage.Inserted? || stage.Waiting? || stage == Leaving(QueueFull) || stage == Leaving(WriterGone)
    }

    function Delivered(ack: Ack): Request {
      if Listening() then this.(inbox := Some(ack)) else this
    }
  }

  datatype Writer = Ready | Holding(frame: Req) | WriterStopping | WriterMarked | WriterSignalled | WriterDone

  datatype Reader = Reading | ReaderStopping | ReaderMarked | ReaderSignalled | Drained

  /** `enqueued` and `written` record every frame that ever entered the queue and
  every frame that reached the socket. */
  datatype State = State(
    requests: map<Req, Request>,
    pending: map<Oid, Req>,
    queue: seq<Req>,
    closed: bool,
    shutdown: bool,
    handles: bool,
    writer: Writer,
    reader: Reader,
    enqueued: seq<Req>,
    written: seq<Req>)
  {
    function To(r: Req, stage: Stage): State
      requires r in requests
    {
      this.(requests := requests[r := requests[r].(stage := stage)])
    }

    predicate At(r: Req, stage: Stage) {
      r in requests && requests[r].stage == stage
    }

    predicate Flying(r: Req) {
      r in requests && requests[r].InFlight()
    }

    /** The sender of the oneshot of `r` sits in the pending map. */
    predicate SenderPending(r: Req) {
      r in requests && requests[r].oid in pending && pending[requests[r].oid] == r
    }
  }

  const CONNECTED := State(map[], map[], [], false, false, true, Ready, Reading, [], [])

  datatype Step =
    // requesters and handles
    | Start(r: Req, oid: Oid)
    | Insert(r: Req)
    | TrySend(r: Req)
    | TakeAck(r: Req)
    | LoseChannel(r: Req)
    | TimeOut(r: Req)
    | Leave(r: Req)
    | CloseMark
    | CloseSignal
    | DropHandles
    // the writer task
    | WriterRecv
    | WriterSend(ok: bool)
    | WriterBreak
    | WriterMark
    | WriterSignal
    | WriterExit
    // the reader task
    | ReaderAck(oid: Oid, body: string)
    | ReaderBreak
    | ReaderMark
    | ReaderSignal
    | ReaderDrain

  predicate Enabled(s: State, step: Step) {
    match step
    case Start(r, oid) =>
      && s.handles
      && r !in s.requests
      && forall other | other in s.requests :: s.requests[other].InFlight() ==> s.requests[other].oid != oid
    case Insert(r) => s.At(r, Checked)
    case TrySend(r) => s.At(r, Inserted)
    case TakeAck(r) => s.At(r, Waiting) && s.requests[r].inbox.Some?
    case LoseChannel(r) => s.At(r, Waiting) && s.requests[r].inbox.None? && !s.SenderPending(r)
    case TimeOut(r) => s.At(r, Waiting) && s.requests[r].inbox.None?
    case Leave(r) => r in s.requests && s.requests[r].stage.Leaving?
    case CloseMark => s.handles
    case CloseSignal => s.handles && s.closed
    case DropHandles => s.handles && forall r | r in s.requests :: !s.requests[r].InFlight()
    case WriterRecv => s.writer.Ready? && s.queue != []
    case WriterSend(_) => s.writer.Holding?
    case WriterBreak => s.writer.Ready? && (s.shutdown || (!s.handles && s.queue == []))
    case WriterMark => s.writer.WriterStopping?
    case WriterSignal => s.writer.WriterMarked?
    case WriterExit => s.writer.WriterSignalled?
    case ReaderAck(_, _) => s.reader.Reading?
    case ReaderBreak => s.reader.Reading?
    case ReaderMark => s.reader.ReaderStopping?
    case ReaderSignal => s.reader.ReaderMarked?
    case ReaderDrain => s.reader.ReaderSignalled?
  }

  function Next(s: State, step: Step): State
    requires Enabled(s, step)
  {
    match step
    case Start(r, oid) =>
      s.(requests := s.requests[r := Request(oid, if s.closed then Done(Failed(ClientClosed)) else Checked, None)])
    case Insert(r) => s.(pending := s.pending[s.requests[r].oid := r]).To(r, Inserted)
    case TrySend(r) =>
      if s.writer.WriterDone? then s.To(r, Leaving(WriterGone))
      else if |s.queue| >= OUTBOUND_QUEUE_CAPACITY then s.To(r, Leaving(QueueFull))
      else s.(queue := s.queue + [r], enqueued := s.enqueued + [r]).To(r, Waiting)
    case TakeAck(r) => s.To(r, Done(Acked(s.requests[r].inbox.value)))
    case LoseChannel(r) => s.To(r, Leaving(ChannelClosed))
    case TimeOut(r) => s.To(r, Leaving(TimedOut))
    case Leave(r) => s.(pending := s.pending - {s.requests[r].oid}).To(r, Done(Failed(s.requests[r].stage.why)))
    case CloseMark => s.(closed := true)
    case CloseSignal => s.(shutdown := true)
    case DropHandles => s.(handles := false)
    case WriterRecv => s.(writer := Holding(s.queue[0]), queue := s.queue[1..])
    case WriterSend(ok) =>
      if ok then s.(writer := Ready, written := s.written + [s.writer.frame]) else s.(writer := WriterStopping)
    case WriterBreak => s.(writer := WriterStopping)
    case WriterMark => s.(writer := WriterMarked, closed := true)
    case WriterSignal => s.(writer := WriterSignalled, shutdown := true)
    case WriterExit => s.(writer := WriterDone, queue := [])
    case ReaderAck(oid, body) =>
      if oid !in s.pending || s.pending[oid] !in s.requests then s.(pending := s.pending - {oid})
      else
        var r := s.pending[oid];
        s.(pending := s.pending - {oid},
           requests := s.requests[r := s.requests[r].Delivered(ServerAck(oid, body))])
    case ReaderBreak => s.(reader := ReaderStopping)
    case ReaderMark => s.(reader := ReaderMarked, closed := true)
    case ReaderSignal => s.(reader := ReaderSignalled, shutdown := true)
    case ReaderDrain => s.(reader := Drained, pending := map[], requests := DrainedRequests(s))
  }

  /** The requests once every pending sender has sent the closing answer. */
  function DrainedRequests(s: State): map<Req, Request> {
    map r | r in s.requests ::
      if s.SenderPending(r) then s.requests[r].Delivered(ConnectionClosed) else s.requests[r]
  }

  ghost predicate Reaches(s: State, steps: seq<Step>, t: State)
    decreases steps
  {
    if steps == [] then s == t
    else Enabled(s, steps[0]) && Reaches(Next(s, steps[0]), steps[1..], t)
  }

  // The invariant

  ghost predicate DistinctOids(s: State) {
    forall r, q :: s.Flying(r) && s.Flying(q) && r != q ==> s.requests[r].oid != s.requests[q].oid
  }

  predicate MayBePending(stage: Stage) {
    stage.Inserted? || stage.Waiting? || stage.Leaving?
  }

  /** Every pending entry belongs to an unanswered in-flight request with that client id. */
  ghost predicate PendingOwned(s: State) {
    forall oid :: oid in s.pending ==>
      && s.pending[oid] in s.requests
      && var q := s.requests[s.pending[oid]];
        q.oid == oid && q.inbox.None? && MayBePending(q.stage)
  }

  /** A listening request without an answer has its sender in the pending map. */
  ghost predicate SendersHeld(s: State) {
    forall r :: r in s.requests && s.requests[r].Listening() && s.requests[r].inbox.None? ==> s.SenderPending(r)
  }

  ghost predicate Routed(q: Request) {
    && (q.inbox.Some? && q.inbox.value.ServerAck? ==> q.inbox.value.oid == q.oid)
    && (q.stage.Checked? ==> q.inbox.None?)
    && (q.stage.Done? && q.stage.result.Acked? ==> q.inbox == Some(q.stage.result.ack))
    && q.stage != Leaving(ChannelClosed)
    && q.stage != Done(Failed(ChannelClosed))
  }

  ghost predicate AcksRouted(s: State) {
    forall r :: r in s.requests ==> Routed(s.requests[r])
  }

  ghost predicate Tables(s: State) {
    DistinctOids(s) && PendingOwned(s) && SendersHeld(s) && AcksRouted(s)
  }

  lemma StartKeepsTables(s: State, r: Req, oid: Oid)
    requires Tables(s) && Enabled(s, Start(r, oid))
    ensures Tables(Next(s, Start(r, oid)))
  {
    var t := Next(s, Start(r, oid));
    assert forall q | t.Flying(q) && q != r :: s.Flying(q);
    assert forall q | q in s.requests :: q != r && t.requests[q] == s.requests[q];
  }

  lemma InsertKeepsPending(s: State, r: Req)
    requires PendingOwned(s) && AcksRouted(s) && Enabled(s, Insert(r))
    ensures PendingOwned(Next(s, Insert(r)))
  {
    assert Routed(s.requests[r]);
  }

  lemma InsertKeepsSenders(s: State, r: Req)
    requires SendersHeld(s) && DistinctOids(s) && Enabled(s, Insert(r))
    ensures SendersHeld(Next(s, Insert(r)))
  {
    var t := Next(s, Insert(r));
    assert s.Flying(r);
    forall q | q in t.requests && t.requests[q].Listening() && t.requests[q].inbox.None? ensures t.SenderPending(q) {
      if q != r {
        assert s.SenderPending(q) && s.Flying(q);
      }
    }
  }

  lemma InsertKeepsTables(s: State, r: Req)
    requires Tables(s) && Enabled(s, Insert(r))
    ensures Tables(Next(s, Insert(r)))
  {
    var t := Next(s, Insert(r));
    InsertKeepsPending(s, r);
    InsertKeepsSenders(s, r);
    OidsStayDistinct(s, t);
    assert forall q | q in t.requests :: Routed(s.requests[q]);
  }

  lemma MoveKeepsTables(s: State, r: Req, stage: Stage)
    requires Tables(s) && s.Flying(r)
    requires MayBePending(s.requests[r].stage) && MayBePending(stage) && stage != Leaving(ChannelClosed)
    requires s.requests[r].(stage := stage).Listening() ==> s.requests[r].Listening()
    ensures Tables(s.To(r, stage))
  {
  }

  lemma TakeAckKeepsTables(s: State, r: Req)
    requires Tables(s) && Enabled(s, TakeAck(r))
    ensures Tables(Next(s, TakeAck(r)))
  {
    OidsStayDistinct(s, Next(s, TakeAck(r)));
    assert Routed(s.requests[r]);
    forall oid | oid in s.pending ensures s.pending[oid] != r {
      assert s.requests[s.pending[oid]].inbox.None?;
    }
  }

  lemma LeaveKeepsTables(s: State, r: Req)
    requires Tables(s) && Enabled(s, Leave(r))
    ensures Tables(Next(s, Leave(r)))
  {
    var t, oid := Next(s, Leave(r)), s.requests[r].oid;
    assert s.Flying(r) && Routed(s.requests[r]);
    assert forall q | t.Flying(q) :: s.Flying(q) && q != r;
    forall q | q in t.requests && t.requests[q].Listening() && t.requests[q].inbox.None? ensures t.SenderPending(q) {
      assert s.SenderPending(q) && s.Flying(q) && q != r;
    }
    forall o | o in t.pending ensures t.pending[o] != r {
      assert s.requests[s.pending[o]].oid == o;
    }
  }

  lemma OidsStayDistinct(s: State, t: State)
    requires DistinctOids(s)
    requires forall q | t.Flying(q) :: s.Flying(q) && t.requests[q].oid == s.requests[q].oid
    ensures DistinctOids(t)
  {
  }

  lemma ReaderAckKeepsPending(s: State, oid: Oid, body: string)
    requires PendingOwned(s) && Enabled(s, ReaderAck(oid, body))
    ensures PendingOwned(Next(s, ReaderAck(oid, body)))
  {
    forall o | o in s.pending && o != oid && oid in s.pending ensures s.pending[o] != s.pending[oid] {
      assert s.requests[s.pending[o]].oid == o && s.requests[s.pending[oid]].oid == oid;
    }
  }

  lemma ReaderAckKeepsSenders(s: State, oid: Oid, body: string)
    requires PendingOwned(s) && SendersHeld(s) && Enabled(s, ReaderAck(oid, body))
    ensures SendersHeld(Next(s, ReaderAck(oid, body)))
  {
    var t := Next(s, ReaderAck(oid, body));
    forall q | q in t.requests && t.requests[q].Listening() && t.requests[q].inbox.None? ensures t.SenderPending(q) {
      assert s.SenderPending(q);
      assert oid in s.pending ==> q != s.pending[oid];
    }
  }

  lemma ReaderAckKeepsTables(s: State, oid: Oid, body: string)
    requires Tables(s) && Enabled(s, ReaderAck(oid, body))
    ensures Tables(Next(s, ReaderAck(oid, body)))
  {
    var t := Next(s, ReaderAck(oid, body));
    ReaderAckKeepsPending(s, oid, body);
    ReaderAckKeepsSenders(s, oid, body);
    OidsStayDistinct(s, t);
    forall q | q in t.requests ensures Routed(t.requests[q]) {
      assert Routed(s.requests[q]);
    }
  }

  lemma DrainAnswersListeners(s: State, q: Req)
    requires Tables(s) && q in s.requests
    ensures var t := DrainedRequests(s);
      && q in t && Routed(t[q])
      && (t[q].Listening() ==> t[q].inbox.Some?)
      && t[q].oid == s.requests[q].oid && t[q].stage == s.requests[q].stage
  {
    assert Routed(s.requests[q]);
    if s.SenderPending(q) {
      assert MayBePending(s.requests[q].stage);
    }
  }

  lemma DrainKeepsTables(s: State)
    requires Tables(s) && Enabled(s, ReaderDrain)
    ensures Tables(Next(s, ReaderDrain))
  {
    var t := Next(s, ReaderDrain);
    forall q | q in t.requests
      ensures q in s.requests && Routed(t.requests[q])
      ensures t.requests[q].Listening() ==> t.requests[q].inbox.Some?
      ensures t.requests[q].oid == s.requests[q].oid && t.requests[q].stage == s.requests[q].stage
    {
      DrainAnswersListeners(s, q);
    }
    OidsStayDistinct(s, t);
  }

  /** A waiting request without an answer never finds its sender dropped. */
  lemma ChannelNeverLost(s: State, r: Req)
    requires Tables(s)
    ensures !Enabled(s, LoseChannel(r))
  {
    if s.At(r, Waiting) && s.requests[r].inbox.None? {
      assert s.requests[r].Listening();
    }
  }

  lemma StepKeepsTables(s: State, step: Step)
    requires Tables(s) && Enabled(s, step)
    ensures Tables(Next(s, step))
  {
    match step
    case Start(r, oid) => StartKeepsTables(s, r, oid);
    case Insert(r) => InsertKeepsTables(s, r);
    case TrySend(r) => TrySendKeepsTables(s, r);
    case TakeAck(r) => TakeAckKeepsTables(s, r);
    case LoseChannel(r) => ChannelNeverLost(s, r);
    case TimeOut(r) => MoveKeepsTables(s, r, Leaving(TimedOut));
    case Leave(r) => LeaveKeepsTables(s, r);
    case ReaderAck(oid, body) => ReaderAckKeepsTables(s, oid, body);
    case ReaderDrain => DrainKeepsTables(s);
    case _ => SameTables(s, Next(s, step));
  }

  lemma TrySendKeepsTables(s: State, r: Req)
    requires Tables(s) && Enabled(s, TrySend(r))
    ensures Tables(Next(s, TrySend(r)))
  {
    if s.writer.WriterDone? {
      MoveKeepsTables(s, r, Leaving(WriterGone));
    } else if |s.queue| >= OUTBOUND_QUEUE_CAPACITY {
      MoveKeepsTables(s, r, Leaving(QueueFull));
    } else {
      MoveKeepsTables(s, r, Waiting);
      SameTables(s.To(r, Waiting), Next(s, TrySend(r)));
    }
  }

  lemma SameTables(s: State, t: State)
    requires Tables(s) && t.requests == s.requests && t.pending == s.pending
    ensures Tables(t)
  {
    assert forall r | t.Flying(r) :: s.Flying(r);
    assert forall r | s.SenderPending(r) :: t.SenderPending(r);
  }
}
