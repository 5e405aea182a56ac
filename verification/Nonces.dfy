/** The nonce generator shared by the clones of a private client: an atomic maximum
with the clock, then an atomic fetch-and-increment. Callers interleave freely. */
module Nonces {
  import opened Options
  import opened Encoding
  import opened Queries
  import opened Retry

  type Caller = nat

  /** Where a caller is inside one signing. Crypto.com takes a request id first. */
  datatype Stage =
    | Idle
    | HasId(taken: nat)
    | ReadClock(id: Option<nat>, nowMs: nat)
    | Raised(id: Option<nat>, nowMs: nat)

  datatype Issue = Issue(caller: Caller, id: Option<nat>, nowMs: nat, nonce: nat)

  datatype Shared = Shared(nonce: nat, nextId: nat, stages: map<Caller, Stage>, issued: seq<Issue>) {
    function StageOf(c: Caller): Stage {
      if c in stages then stages[c] else Idle
    }

    function To(c: Caller, stage: Stage): Shared {
      this.(stages := stages[c := stage])
    }
  }

  const FRESH := Shared(0, 1, map[], [])

  /** One atomic step; a clock reading is any integer, and may jump backwards. */
  datatype Step =
    | TakeId(caller: Caller)
    | Look(caller: Caller, clockMs: int)
    | FetchMax(caller: Caller)
    | FetchAdd(caller: Caller)

  function NonNegative(clockMs: int): nat {
    if clockMs < 0 then 0 else clockMs
  }

  function Max(a: nat, b: nat): nat {
    if a < b then b else a
  }

  predicate Enabled(s: Shared, step: Step) {
    match step
    case TakeId(c) => s.StageOf(c).Idle?
    case Look(c, _) => s.StageOf(c).Idle? || s.StageOf(c).HasId?
    case FetchMax(c) => s.StageOf(c).ReadClock?
    case FetchAdd(c) => s.StageOf(c).Raised?
  }

  function Next(s: Shared, step: Step): Shared
    requires Enabled(s, step)
  {
    match step
    case TakeId(c) => s.(nextId := s.nextId + 1).To(c, HasId(s.nextId))
    case Look(c, clockMs) =>
      var id := if s.StageOf(c).HasId? then Some(s.StageOf(c).taken) else None;
      s.To(c, ReadClock(id, NonNegative(clockMs)))
    case FetchMax(c) =>
      var stage := s.StageOf(c);
      s.(nonce := Max(s.nonce, stage.nowMs)).To(c, Raised(stage.id, stage.nowMs))
    case FetchAdd(c) =>
      var stage := s.StageOf(c);
      s.(nonce := s.nonce + 1, issued := s.issued + [Issue(c, stage.id, stage.nowMs, s.nonce)]).To(c, Idle)
  }

  ghost predicate Reaches(s: Shared, steps: seq<Step>, t: Shared)
    decreases steps
  {
    if steps == [] then s == t
    else Enabled(s, steps[0]) && Reaches(Next(s, steps[0]), steps[1..], t)
  }

  /** Everything issued is below the counter and in rising order, no clock reading was
  outrun, and the ids handed out are below the id counter. */
  ghost predicate NoncesInOrder(s: Shared) {
    && (forall i :: 0 <= i < |s.issued| ==> s.issued[i].nowMs <= s.issued[i].nonce < s.nonce)
    && (forall i, j :: 0 <= i < j < |s.issued| ==> s.issued[i].nonce < s.issued[j].nonce)
    && forall c :: c in s.stages && s.stages[c].Raised? ==> s.stages[c].nowMs <= s.nonce
  }

  function HeldId(stage: Stage): Option<nat> {
    match stage
    case Idle => None
    case HasId(id) => Some(id)
    case ReadClock(id, _) => id
    case Raised(id, _) => id
  }

  ghost predicate IdsDistinct(s: Shared) {
    && (forall c :: c in s.stages && HeldId(s.stages[c]).Some? ==> HeldId(s.stages[c]).value < s.nextId)
    && (forall i :: 0 <= i < |s.issued| && s.issued[i].id.Some? ==> s.issued[i].id.value < s.nextId)
    && (forall c, d :: c in s.stages && d in s.stages && c != d && HeldId(s.stages[c]).Some? ==>
                         HeldId(s.stages[c]) != HeldId(s.stages[d]))
    && (forall c, i :: c in s.stages && 0 <= i < |s.issued| && s.issued[i].id.Some? ==>
                         HeldId(s.stages[c]) != s.issued[i].id)
    && forall i, j :: 0 <= i < j < |s.issued| && s.issued[i].id.Some? ==> s.issued[i].id != s.issued[j].id
  }

  lemma StepKeepsOrder(s: Shared, step: Step)
    requires NoncesInOrder(s) && Enabled(s, step)
    ensures NoncesInOrder(Next(s, step))
  {
  }

  lemma StepKeepsIds(s: Shared, step: Step)
    requires IdsDistinct(s) && Enabled(s, step)
    ensures IdsDistinct(Next(s, step))
  {
    match step
    case TakeId(c) =>
    case Look(c, _) =>
    case FetchMax(c) =>
    case FetchAdd(c) =>
  }

  lemma {:induction false} RunKeepsInvariants(s: Shared, steps: seq<Step>, t: Shared)
    requires NoncesInOrder(s) && IdsDistinct(s) && Reaches(s, steps, t)
    ensures NoncesInOrder(t) && IdsDistinct(t)
    decreases steps
  {
    if steps == [] {
    } else {
      StepKeepsOrder(s, steps[0]);
      StepKeepsIds(s, steps[0]);
      RunKeepsInvariants(Next(s, steps[0]), steps[1..], t);
    }
  }

  /** Under every interleaving of any number of callers nonces rise in the order of the
  increments, none is below its caller's clock reading, and no request id repeats. */
  lemma NoncesAreFresh(steps: seq<Step>, t: Shared)
    requires Reaches(FRESH, steps, t)
    ensures forall i :: 0 <= i < |t.issued| ==> t.issued[i].nowMs <= t.issued[i].nonce
    ensures forall i, j :: 0 <= i < j < |t.issued| ==> t.issued[i].nonce < t.issued[j].nonce
    ensures forall i, j :: 0 <= i < j < |t.issued| && t.issued[i].id.Some? ==> t.issued[i].id != t.issued[j].id
  {
    RunKeepsInvariants(FRESH, steps, t);
  }

  /** No two signed bodies of all calls and retries are the same text, whatever their parameters. */
  lemma SignedBodiesDiffer(steps: seq<Step>, t: Shared, i: nat, j: nat, p: seq<Param>, q: seq<Param>)
    requires Reaches(FRESH, steps, t) && i < j < |t.issued|
    ensures NonceBody(t.issued[i].nonce, p) != NonceBody(t.issued[j].nonce, q)
  {
    NoncesAreFresh(steps, t);
    if NonceBody(t.issued[i].nonce, p) == NonceBody(t.issued[j].nonce, q) {
      NonceBodyNamesNonce(t.issued[i].nonce, t.issued[j].nonce, p, q);
    }
  }

  // Nonces stay near the clock, and no request id is skipped

  ghost predicate ClocksUpTo(steps: seq<Step>, latest: nat) {
    forall i :: 0 <= i < |steps| && steps[i].Look? ==> steps[i].clockMs <= latest
  }

  /** Every increment moves the counter by one, and nothing else past the latest clock reading. */
  ghost predicate NearClock(s: Shared, latest: nat) {
    && s.nonce <= latest + |s.issued|
    && (forall i :: 0 <= i < |s.issued| ==> s.issued[i].nonce <= latest + i)
    && forall c :: c in s.stages && s.stages[c].ReadClock? ==> s.stages[c].nowMs <= latest
  }

  lemma {:induction false} RunStaysNearClock(s: Shared, steps: seq<Step>, t: Shared, latest: nat)
    requires NearClock(s, latest) && ClocksUpTo(steps, latest) && Reaches(s, steps, t)
    ensures NearClock(t, latest)
    decreases steps
  {
    if steps == [] {
    } else {
      assert forall i | 0 <= i < |steps| - 1 :: steps[1..][i] == steps[i + 1];
      RunStaysNearClock(Next(s, steps[0]), steps[1..], t, latest);
    }
  }

  /** A nonce exceeds the latest clock reading of the run by no more than the number of
  nonces issued before it. */
  lemma NoncesTrackClock(steps: seq<Step>, t: Shared, latest: nat, i: nat)
    requires Reaches(FRESH, steps, t) && ClocksUpTo(steps, latest) && i < |t.issued|
    ensures t.issued[i].nonce <= latest + i
  {
    RunStaysNearClock(FRESH, steps, t, latest);
  }

  /** Every id below the counter, from 1 on, is held by a caller or has been sent. */
  ghost predicate NoIdSkipped(s: Shared) {
    forall id: nat :: 1 <= id < s.nextId ==> IdInUse(s, id)
  }

  ghost predicate IdInUse(s: Shared, id: nat) {
    || (exists c :: c in s.stages && HeldId(s.stages[c]) == Some(id))
    || (exists i :: 0 <= i < |s.issued| && s.issued[i].id == Some(id))
  }

  lemma StepKeepsIdInUse(s: Shared, step: Step, id: nat)
    requires Enabled(s, step) && IdInUse(s, id)
    ensures IdInUse(Next(s, step), id)
  {
    var t := Next(s, step);
    if i :| 0 <= i < |s.issued| && s.issued[i].id == Some(id) {
      assert t.issued[i] == s.issued[i];
    } else {
      var c :| c in s.stages && HeldId(s.stages[c]) == Some(id);
      assert c in t.stages;
      if step == FetchAdd(c) {
        assert t.issued[|s.issued|].id == Some(id);
      }
    }
  }

  lemma {:induction false} RunSkipsNoId(s: Shared, steps: seq<Step>, t: Shared)
    requires NoIdSkipped(s) && Reaches(s, steps, t)
    ensures NoIdSkipped(t)
    decreases steps
  {
    if steps == [] {
    } else {
      var next := Next(s, steps[0]);
      forall id: nat | 1 <= id < next.nextId ensures IdInUse(next, id) {
        if id < s.nextId {
          StepKeepsIdInUse(s, steps[0], id);
        } else {
          assert HeldId(next.stages[steps[0].caller]) == Some(id);
        }
      }
      RunSkipsNoId(next, steps[1..], t);
    }
  }

  /** Request ids count from 1 without a gap. */
  lemma IdsCountFromOne(steps: seq<Step>, t: Shared, id: nat)
    requires Reaches(FRESH, steps, t)
    ensures 1 <= id < t.nextId ==> IdInUse(t, id)
  {
    RunSkipsNoId(FRESH, steps, t);
  }

  // Crypto.com sends the nonce as a signed 64-bit number

  const I64_MAX: nat := 0x7FFF_FFFF_FFFF_FFFF

  function AsI64(nonce: nat): nat {
    if nonce <= I64_MAX then nonce else I64_MAX
  }

  /** The conversion keeps two nonces of a run apart exactly while the earlier one is
  below the 64-bit maximum. */
  lemma SignedNoncesDifferIff(steps: seq<Step>, t: Shared, i: nat, j: nat)
    requires Reaches(FRESH, steps, t) && i < j < |t.issued|
    ensures AsI64(t.issued[i].nonce) != AsI64(t.issued[j].nonce) <==> t.issued[i].nonce < I64_MAX
  {
    NoncesAreFresh(steps, t);
  }

  /** Below the maximum a nonce is sent as it is, and the conversion keeps the order. */
  lemma ConversionKeepsOrder(m: nat, n: nat)
    ensures n < 0x8000_0000_0000_0000 ==> AsI64(n) == n
    ensures m <= n ==> AsI64(m) <= AsI64(n) < 0x8000_0000_0000_0000
  {
  }

  /** A private client as one caller sees it: between its own atomic operations the
  other clones may have raised the shared counter. */
  class KrakenPrivateClient {
    var nonceState: nat

    constructor ()
      ensures nonceState == 0
    {
      nonceState := 0;
    }

    /** `others` is how far other clones move the counter between the two operations. */
    method NextNonce(clockMs: int, others: nat) returns (nonce: nat)
      modifies this
      ensures nonce - others == if old(nonceState) >= clockMs then old(nonceState) else clockMs
      ensures nonceState == nonce + 1
    {
      var nowMs := NonNegative(clockMs);
      nonceState := Max(nonceState, nowMs);
      nonceState := nonceState + others;
      nonce := nonceState;
      nonceState := nonceState + 1;
    }

    method SignBody(params: seq<Param>, clockMs: int, others: nat) returns (body: string, nonce: nat)
      modifies this
      ensures body == NonceBody(nonce, params)
      ensures nonce - others == if old(nonceState) >= clockMs then old(nonceState) else clockMs
      ensures nonceState == nonce + 1
    {
      nonce := NextNonce(clockMs, others);
      var text := Decimal(nonce);
      DecimalRoundTrip(nonce);
      body := FormEncode([Param(Ascii(NONCE), Ascii(text))] + params);
    }

    /** One call: a signature up front, then a fresh one for every request that the
    retry loop builds. `clock` and `others` supply each signing in turn. */
    method Post(params: seq<Param>, replies: Replies, clock: nat -> int, others: nat -> nat)
      returns (end: RetryEnd, bodies: seq<string>, nonces: seq<nat>)
      modifies this
      ensures DecidedAt(DEFAULT_RETRIES, replies, |bodies|) && end == EndOf(replies(|bodies| - 1))
      ensures |nonces| == |bodies| <= 8
      ensures forall k :: 0 <= k < |bodies| ==> bodies[k] == NonceBody(nonces[k], params)
      ensures forall k :: 0 <= k < |bodies| ==> old(nonceState) < nonces[k] < nonceState
      ensures forall k :: 0 <= k < |bodies| ==> clock(k + 1) <= nonces[k]
      ensures forall j, k :: 0 <= j < k < |bodies| ==> nonces[j] < nonces[k]
      ensures forall j, k :: 0 <= j < k < |bodies| ==> bodies[j] != bodies[k]
    {
      var _, validated := SignBody(params, clock(0), others(0));
      var built;
      end, built := SendWithRetry(replies);
      bodies, nonces := SignEach(params, built, clock, others);
      RisingNoncesDifferentBodies(params, bodies, nonces);
    }

    /** The closure that the retry loop calls for each request, in call order. */
    method SignEach(params: seq<Param>, count: nat, clock: nat -> int, others: nat -> nat)
      returns (bodies: seq<string>, nonces: seq<nat>)
      modifies this
      ensures |nonces| == |bodies| == count
      ensures forall k :: 0 <= k < count ==> bodies[k] == NonceBody(nonces[k], params)
      ensures forall k :: 0 <= k < count ==> old(nonceState) <= nonces[k] < nonceState
      ensures forall k :: 0 <= k < count ==> clock(k + 1) <= nonces[k]
      ensures forall j, k :: 0 <= j < k < count ==> nonces[j] < nonces[k]
    {
      bodies, nonces := [], [];
      for k := 0 to count
        invariant |bodies| == |nonces| == k
        invariant old(nonceState) <= nonceState
        invariant forall j :: 0 <= j < k ==> bodies[j] == NonceBody(nonces[j], params)
        invariant forall j :: 0 <= j < k ==> old(nonceState) <= nonces[j] < nonceState
        invariant forall j :: 0 <= j < k ==> clock(j + 1) <= nonces[j]
        invariant forall i, j :: 0 <= i < j < k ==> nonces[i] < nonces[j]
      {
        var body, nonce := SignBody(params, clock(k + 1), others(k + 1));
        bodies, nonces := bodies + [body], nonces + [nonce];
      }
    }
  }

  lemma RisingNoncesDifferentBodies(params: seq<Param>, bodies: seq<string>, nonces: seq<nat>)
    requires |bodies| == |nonces|
    requires forall k :: 0 <= k < |bodies| ==> bodies[k] == NonceBody(nonces[k], params)
    requires forall j, k :: 0 <= j < k < |bodies| ==> nonces[j] < nonces[k]
    ensures forall j, k :: 0 <= j < k < |bodies| ==> bodies[j] != bodies[k]
  {
    forall j, k | 0 <= j < k < |bodies| ensures bodies[j] != bodies[k] {
      if bodies[j] == bodies[k] {
        NonceBodyNamesNonce(nonces[j], nonces[k], params, params);
      }
    }
  }
}
