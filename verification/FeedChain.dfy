/** Dropped-message detection on venues that chain their book messages: each
message names its predecessor's id (OKX `prevSeqId`, Crypto.com `pu`). */
module FeedChain {
  import opened Options
  import opened OrderBook

  datatype UpdateIds = UpdateIds(first: Option<nat>, last: Option<nat>)

  function NonNegative(i: int): Option<nat> {
    if i >= 0 then Some(i) else None
  }

  /** The ids of an OKX book entry; -1 as predecessor marks a snapshot. */
  function OkxIds(seqId: Option<int>, prevSeqId: Option<int>): UpdateIds {
    var last := if seqId.Some? then NonNegative(seqId.value) else None;
    var first := if prevSeqId.Some? then NonNegative(prevSeqId.value + 1) else None;
    UpdateIds(first.Or(last), last)
  }

  /** The ids of a Crypto.com book entry, whose counters are read as unsigned. */
  function CryptocomIds(u: Option<nat>, pu: Option<nat>): UpdateIds {
    var first := if pu.Some? then Some(pu.value + 1) else None;
    UpdateIds(first.Or(u), u)
  }

  /** A venue's chain: message 0 is the snapshot, and message `i` carries `ids[i]`. */
  ghost predicate Advancing(ids: seq<nat>) {
    forall i, j :: 0 <= i < j < |ids| ==> ids[i] < ids[j]
  }

  /** `msg` is message `i` of the chain, as the OKX or the Crypto.com parser builds it. */
  ghost predicate ChainMessage(ids: seq<nat>, i: nat, msg: BookMessage) {
    && 0 < i < |ids|
    && !msg.isSnapshot
    && var stamped := UpdateIds(msg.firstUpdateId, msg.lastUpdateId);
      || stamped == OkxIds(Some(ids[i]), Some(ids[i - 1]))
      || stamped == CryptocomIds(Some(ids[i]), Some(ids[i - 1]))
  }

  ghost predicate ChainDelivery(ids: seq<nat>, positions: seq<nat>, msgs: seq<BookMessage>) {
    && |positions| == |msgs|
    && forall k :: 0 <= k < |msgs| ==> ChainMessage(ids, positions[k], msgs[k])
  }

  /** What a receiver that counts chain positions would answer: it holds everything
  up to position `at`, and has lost the chain when `lost`. */
  function PositionOutcome(ids: seq<nat>, at: nat, lost: bool, i: nat): BookApply
    requires at < |ids| && 0 < i < |ids|
  {
    if lost then AwaitingSnapshot
    else if i <= at then Stale
    else if i == at + 1 then Delta
    else Gap(ids[at] + 1, ids[i - 1] + 1)
  }

  ghost predicate HoldsPosition(book: BookState, ids: seq<nat>, at: nat, lost: bool) {
    at < |ids| && book.synced == !lost && book.lastUpdateId == Some(ids[at])
  }

  lemma StepFollowsPosition(ids: seq<nat>, book: BookState, at: nat, lost: bool, i: nat, msg: BookMessage)
    requires Advancing(ids) && HoldsPosition(book, ids, at, lost) && ChainMessage(ids, i, msg)
    ensures Outcome(book, msg) == PositionOutcome(ids, at, lost, i)
    ensures HoldsPosition(Applied(book, msg), ids, if !lost && i == at + 1 then i else at, lost || i > at + 1)
  {
    if i <= at {
      assert ids[i] <= ids[at];
    } else if i > at + 1 {
      assert ids[at] < ids[i - 1] && ids[at] < ids[i];
    }
  }

  /** The answers of the position-counting receiver to a whole delivery. */
  ghost function PositionOutcomes(ids: seq<nat>, at: nat, lost: bool, positions: seq<nat>): (r: seq<BookApply>)
    requires at < |ids|
    requires forall k :: 0 <= k < |positions| ==> 0 < positions[k] < |ids|
    ensures |r| == |positions|
    decreases positions
  {
    if positions == [] then []
    else
      var i := positions[0];
      [PositionOutcome(ids, at, lost, i)] +
      PositionOutcomes(ids, if !lost && i == at + 1 then i else at, lost || i > at + 1, positions[1..])
  }

  /** The id arithmetic tracks chain positions under every drop, duplicate and reordering. */
  lemma {:induction false} DeliveryFollowsPositions(
    ids: seq<nat>, book: BookState, at: nat, lost: bool, positions: seq<nat>, msgs: seq<BookMessage>)
    requires Advancing(ids) && HoldsPosition(book, ids, at, lost) && ChainDelivery(ids, positions, msgs)
    ensures Outcomes(book, msgs) == PositionOutcomes(ids, at, lost, positions)
    decreases msgs
  {
    if msgs == [] {
    } else {
      var i := positions[0];
      StepFollowsPosition(ids, book, at, lost, i, msgs[0]);
      assert ChainDelivery(ids, positions[1..], msgs[1..]) by {
        assert forall k | 0 <= k < |msgs| - 1 :: msgs[1..][k] == msgs[k + 1] && positions[1..][k] == positions[k + 1];
      }
      DeliveryFollowsPositions(ids, Applied(book, msgs[0]), if !lost && i == at + 1 then i else at,
                               lost || i > at + 1, positions[1..], msgs[1..]);
    }
  }

  /** The first `k` delivered messages are the next `k` of the chain after `at`. */
  ghost predicate Unbroken(at: nat, positions: seq<nat>, k: nat)
    requires k <= |positions|
  {
    forall j :: 0 <= j < k ==> positions[j] == at + 1 + j
  }

  ghost predicate InOrder(at: nat, positions: seq<nat>, bound: nat) {
    && (forall k :: 0 <= k < |positions| ==> at < positions[k] < bound)
    && forall i, j :: 0 <= i < j < |positions| ==> positions[i] < positions[j]
  }

  lemma UnbrokenTail(at: nat, positions: seq<nat>, k: nat)
    requires 0 < k <= |positions| && positions[0] == at + 1
    ensures Unbroken(at, positions, k) <==> Unbroken(at + 1, positions[1..], k - 1)
  {
    var left := positions[1..];
    if Unbroken(at + 1, left, k - 1) {
      forall j | 0 <= j < k ensures positions[j] == at + 1 + j {
        if j > 0 {
          assert left[j - 1] == at + 2 + (j - 1);
        }
      }
    }
  }

  lemma {:induction false} LostAwaits(ids: seq<nat>, at: nat, positions: seq<nat>, k: nat)
    requires at < |ids| && k < |positions|
    requires forall j :: 0 <= j < |positions| ==> 0 < positions[j] < |ids|
    ensures PositionOutcomes(ids, at, true, positions)[k] == AwaitingSnapshot
    decreases positions
  {
    if k == 0 {
    } else {
      LostAwaits(ids, at, positions[1..], k - 1);
    }
  }

  /** What in-order delivery leads to at the `k`-th message delivered. */
  ghost function HoleOutcome(ids: seq<nat>, at: nat, positions: seq<nat>, k: nat): BookApply
    requires at < |ids| && InOrder(at, positions, |ids|) && k < |positions|
  {
    if Unbroken(at, positions, k + 1) then Delta
    else if Unbroken(at, positions, k) then
      Gap(ids[if k == 0 then at else positions[k - 1]] + 1, ids[positions[k] - 1] + 1)
    else AwaitingSnapshot
  }

  lemma HoleOutcomeTail(ids: seq<nat>, at: nat, positions: seq<nat>, k: nat)
    requires at < |ids| && InOrder(at, positions, |ids|) && 0 < k < |positions|
    requires positions[0] == at + 1
    ensures InOrder(at + 1, positions[1..], |ids|)
    ensures HoleOutcome(ids, at, positions, k) == HoleOutcome(ids, at + 1, positions[1..], k - 1)
  {
    UnbrokenTail(at, positions, k);
    UnbrokenTail(at, positions, k + 1);
  }

  lemma PositionOutcomesTail(ids: seq<nat>, at: nat, positions: seq<nat>, k: nat)
    requires at < |ids| && InOrder(at, positions, |ids|) && 0 < k < |positions|
    ensures forall j :: 0 <= j < |positions[1..]| ==> 0 < positions[1..][j] < |ids|
    ensures PositionOutcomes(ids, at, false, positions)[k] ==
      if positions[0] == at + 1 then PositionOutcomes(ids, at + 1, false, positions[1..])[k - 1]
      else PositionOutcomes(ids, at, true, positions[1..])[k - 1]
  {
    assert forall j | 0 <= j < |positions[1..]| :: positions[1..][j] == positions[j + 1];
  }

  lemma BrokenHoleOutcome(ids: seq<nat>, at: nat, positions: seq<nat>, k: nat)
    requires at < |ids| && InOrder(at, positions, |ids|) && 0 < k < |positions| && positions[0] != at + 1
    ensures HoleOutcome(ids, at, positions, k) == AwaitingSnapshot
  {
    assert positions[0] != at + 1 + 0;
  }

  /** The first message delivered, and every one delivered once that one left a hole. */
  lemma FirstOrLost(ids: seq<nat>, at: nat, positions: seq<nat>, k: nat)
    requires at < |ids| && InOrder(at, positions, |ids|) && k < |positions|
    requires k == 0 || positions[0] != at + 1
    ensures PositionOutcomes(ids, at, false, positions)[k] == HoleOutcome(ids, at, positions, k)
  {
    if k > 0 {
      BrokenHoleOutcome(ids, at, positions, k);
      PositionOutcomesTail(ids, at, positions, k);
      LostAwaits(ids, at, positions[1..], k - 1);
    }
  }

  lemma {:induction false} FirstHolePosition(ids: seq<nat>, at: nat, positions: seq<nat>, k: nat)
    requires at < |ids| && InOrder(at, positions, |ids|) && k < |positions|
    ensures PositionOutcomes(ids, at, false, positions)[k] == HoleOutcome(ids, at, positions, k)
    decreases k
  {
    if k == 0 || positions[0] != at + 1 {
      FirstOrLost(ids, at, positions, k);
    } else {
      PositionOutcomesTail(ids, at, positions, k);
      HoleOutcomeTail(ids, at, positions, k);
      FirstHolePosition(ids, at + 1, positions[1..], k - 1);
    }
  }

  /** In-order delivery with any messages dropped: everything before the first hole
  applies, the first message past it reports the gap, and the rest wait. */
  lemma FirstHoleIsTheGap(
    ids: seq<nat>, book: BookState, at: nat, positions: seq<nat>, msgs: seq<BookMessage>, k: nat)
    requires Advancing(ids) && HoldsPosition(book, ids, at, false) && ChainDelivery(ids, positions, msgs)
    requires InOrder(at, positions, |ids|) && k < |msgs|
    ensures Outcomes(book, msgs)[k] == HoleOutcome(ids, at, positions, k)
  {
    DeliveryFollowsPositions(ids, book, at, false, positions, msgs);
    FirstHolePosition(ids, at, positions, k);
  }

  /** A complete delivery never reports a gap. */
  lemma CompleteDeliveryNeverGaps(ids: seq<nat>, book: BookState, msgs: seq<BookMessage>)
    requires Advancing(ids) && HoldsPosition(book, ids, 0, false) && |msgs| == |ids| - 1
    requires forall k :: 0 <= k < |msgs| ==> ChainMessage(ids, k + 1, msgs[k])
    ensures forall k :: 0 <= k < |msgs| ==> Outcomes(book, msgs)[k] == Delta
  {
    var positions := seq(|msgs|, k requires 0 <= k => k + 1);
    forall k | 0 <= k < |msgs| ensures Outcomes(book, msgs)[k] == Delta {
      FirstHoleIsTheGap(ids, book, 0, positions, msgs, k);
    }
  }

  ghost predicate NeverFalling(ids: seq<nat>) {
    forall i, j :: 0 <= i < j < |ids| ==> ids[i] <= ids[j]
  }

  /** A chain may also repeat an id, with a message that names its own id as predecessor: a
  complete delivery answers such a message as stale, applies the others, and never
  reports a gap. */
  lemma {:induction false} RepeatedIdsNeverGap(ids: seq<nat>, book: BookState, at: nat, msgs: seq<BookMessage>, k: nat)
    requires NeverFalling(ids) && HoldsPosition(book, ids, at, false) && at + |msgs| < |ids| && k < |msgs|
    requires forall j :: 0 <= j < |msgs| ==> ChainMessage(ids, at + 1 + j, msgs[j])
    ensures Outcomes(book, msgs)[k] == if ids[at + 1 + k] == ids[at + k] then Stale else Delta
    decreases msgs
  {
    assert ChainMessage(ids, at + 1 + 0, msgs[0]) && ids[at] <= ids[at + 1];
    if k == 0 {
    } else {
      forall j | 0 <= j < |msgs| - 1 ensures ChainMessage(ids, at + 2 + j, msgs[1..][j]) {
        assert ChainMessage(ids, at + 1 + (j + 1), msgs[j + 1]);
      }
      RepeatedIdsNeverGap(ids, Applied(book, msgs[0]), at + 1, msgs[1..], k - 1);
    }
  }
}
