/** The sliding-window guard in front of every outbound frame. Times are
nanoseconds; every clock read is an input. */
module SendGuard {

  const MAX_MSGS: nat := 100
  const WINDOW := 10_000_000_000

  /** The stamps left once those older than the window are dropped from the front. */
  function DropOld(window: seq<int>, now: int): seq<int> {
    if window != [] && now - window[0] > WINDOW then DropOld(window[1..], now) else window
  }

  /** How long a check sleeps, given the stamps left and the time it read. */
  function Wait(left: seq<int>, now: int): nat {
    if |left| >= MAX_MSGS && WINDOW - (now - left[0]) > 0 then WINDOW - (now - left[0]) else 0
  }

  class WsMsgGuard {
    var window: seq<int>

    constructor ()
      ensures window == []
    {
      window := [];
    }

    /** `now` is the clock on entry, `after` the clock once any sleep is over. */
    method Check(now: int, after: int) returns (slept: nat)
      modifies this
      ensures slept == Wait(DropOld(old(window), now), now)
      ensures window == DropOld(old(window), now) + [after]
      ensures window != [] && DropsOlder(old(window), now, window[..|window| - 1])
      ensures SleepsUntilOldestLeaves(window[..|window| - 1], now, slept)
      ensures |window| == 101 ==>
        forall sent :: HoldsTail(old(window), sent) && Spaced(sent) && (sent != [] ==> sent[|sent| - 1] <= now) ==>
          LeastSleep(sent, now, slept)
    {
      CheckMeaning(window, now, after);
      while window != [] && now - window[0] > WINDOW
        invariant DropOld(window, now) == DropOld(old(window), now)
        decreases |window|
      {
        window := window[1..];
      }
      slept := 0;
      if |window| >= MAX_MSGS {
        var wait := WINDOW - (now - window[0]);
        if wait > 0 {
          slept := wait;
        }
      }
      window := window + [after];
    }
  }

  /** `left` is what remains once every leading stamp more than ten seconds old is dropped. */
  ghost predicate DropsOlder(window: seq<int>, now: int, left: seq<int>) {
    && |left| <= |window|
    && left == window[|window| - |left|..]
    && (forall i :: 0 <= i < |window| - |left| ==> now - window[i] > 10_000_000_000)
    && (left != [] ==> now - left[0] <= 10_000_000_000)
  }

  /** With fewer than a hundred stamps left, or the oldest a full window old, there is no
  sleep; otherwise it ends when the oldest is exactly ten seconds old. */
  ghost predicate SleepsUntilOldestLeaves(left: seq<int>, now: int, slept: nat) {
    if |left| < 100 || now - left[0] >= 10_000_000_000 then slept == 0
    else now + slept - left[0] == 10_000_000_000
  }

  /** The stamp may be recorded after any sleep that is at least this long, and no shorter. */
  ghost predicate LeastSleep(sent: seq<int>, now: int, slept: nat) {
    forall after :: after >= now ==> (Spaced(sent + [after]) <==> after >= now + slept)
  }

  /** What a check drops, how long it sleeps, and why: with exactly a hundred stamps left
  its sleep is the least that keeps the bound. */
  lemma CheckMeaning(window: seq<int>, now: int, after: int)
    ensures var left := DropOld(window, now);
      && (left + [after])[..|left|] == left
      && DropsOlder(window, now, left)
      && SleepsUntilOldestLeaves(left, now, Wait(left, now))
      && (|left| == 100 ==>
            forall sent :: HoldsTail(window, sent) && Spaced(sent) && (sent != [] ==> sent[|sent| - 1] <= now) ==>
              LeastSleep(sent, now, Wait(left, now)))
  {
    DropOldDrops(window, now);
    var left := DropOld(window, now);
    assert (left + [after])[..|left|] == left;
    if |left| == 100 {
      forall sent | HoldsTail(window, sent) && Spaced(sent) && (sent != [] ==> sent[|sent| - 1] <= now)
        ensures LeastSleep(sent, now, Wait(left, now))
      {
        SleepIsLeast(window, sent, now);
      }
    }
  }

  lemma SleepIsLeast(window: seq<int>, sent: seq<int>, now: int)
    requires HoldsTail(window, sent) && Spaced(sent) && |DropOld(window, now)| == 100
    requires sent != [] ==> sent[|sent| - 1] <= now
    ensures LeastSleep(sent, now, Wait(DropOld(window, now), now))
  {
    CheckHoldsTail(window, sent, Reads(now, now));
    var left := DropOld(window, now);
    assert left[0] == sent[|sent| - 100];
    forall after | after >= now ensures Spaced(sent + [after]) <==> after >= now + Wait(left, now) {
      SpacedAppend(sent, after);
    }
  }

  /** The two clock reads of one check. */
  datatype Reads = Reads(now: int, after: int)

  /** The stamps held after a whole run of checks, and every stamp ever recorded. */
  function WindowAfter(run: seq<Reads>): seq<int> {
    if run == [] then []
    else
      var last := run[|run| - 1];
      DropOld(WindowAfter(run[..|run| - 1]), last.now) + [last.after]
  }

  function Sent(run: seq<Reads>): (sent: seq<int>)
    ensures |sent| == |run|
    ensures forall i :: 0 <= i < |run| ==> sent[i] == run[i].after
  {
    seq(|run|, i requires 0 <= i < |run| => run[i].after)
  }

  /** Sleeps last at least as long as asked, and the clock never runs backwards. */
  ghost predicate Physical(run: seq<Reads>) {
    && (forall k :: 0 <= k < |run| ==> SleptEnough(run, k))
    && forall k :: 0 < k < |run| ==> InTurn(run, k)
  }

  /** Check `k` reads the clock no earlier than the check before it recorded its send. */
  ghost predicate InTurn(run: seq<Reads>, k: nat)
    requires 0 < k < |run|
  {
    run[k - 1].after <= run[k].now
  }

  ghost predicate SleptEnough(run: seq<Reads>, k: nat)
    requires k < |run|
  {
    run[k].after >= run[k].now + Wait(DropOld(WindowAfter(run[..k]), run[k].now), run[k].now)
  }

  /** The clock advances between recording a send and the next check. */
  ghost predicate StrictClock(run: seq<Reads>) {
    forall k :: 0 < k < |run| ==> Advanced(run, k)
  }

  ghost predicate Advanced(run: seq<Reads>, k: nat)
    requires 0 < k < |run|
  {
    run[k - 1].after < run[k].now
  }

  /** Any 101 consecutive sends span at least ten seconds. */
  ghost predicate Spaced(sent: seq<int>) {
    forall i :: 0 <= i < |sent| - 100 ==> sent[i + 100] - sent[i] >= 10_000_000_000
  }

  ghost predicate Rising(sent: seq<int>) {
    forall i, j :: 0 <= i <= j < |sent| ==> sent[i] <= sent[j]
  }

  /** The window is the tail of the sends, and everything dropped is older than the window. */
  ghost predicate HoldsTail(window: seq<int>, sent: seq<int>) {
    && Rising(sent)
    && |window| <= |sent|
    && window == sent[|sent| - |window|..]
    && (sent != [] ==> window != [])
    && forall i :: 0 <= i < |sent| - |window| ==> sent[|sent| - 1] - sent[i] > WINDOW
  }

  lemma {:induction false} DropOldDrops(window: seq<int>, now: int)
    ensures var left := DropOld(window, now);
      && |left| <= |window|
      && left == window[|window| - |left|..]
      && (forall i :: 0 <= i < |window| - |left| ==> now - window[i] > WINDOW)
      && (left != [] ==> now - left[0] <= WINDOW)
  {
    if window != [] && now - window[0] > WINDOW {
      DropOldDrops(window[1..], now);
      var left := DropOld(window, now);
      assert window[1..][|window| - 1 - |left|..] == window[|window| - |left|..];
      forall i | 0 <= i < |window| - |left| ensures now - window[i] > WINDOW {
        if i > 0 {
          assert window[i] == window[1..][i - 1];
        }
      }
    }
  }

  lemma RisingAppend(sent: seq<int>, t: int)
    requires Rising(sent) && (sent != [] ==> sent[|sent| - 1] <= t)
    ensures Rising(sent + [t])
  {
  }

  lemma CheckHoldsTail(window: seq<int>, sent: seq<int>, r: Reads)
    requires HoldsTail(window, sent) && r.now <= r.after
    requires sent != [] ==> sent[|sent| - 1] <= r.now
    ensures HoldsTail(DropOld(window, r.now) + [r.after], sent + [r.after])
    ensures DropOld(window, r.now) == sent[|sent| - |DropOld(window, r.now)|..]
  {
    DropOldDrops(window, r.now);
    RisingAppend(sent, r.after);
    var left := DropOld(window, r.now);
    var skipped := |sent| - |left|;
    var dropped := |sent| - |window|;
    assert left == sent[skipped..] by {
      TailOfTail(sent, dropped, |window| - |left|);
    }
    forall i | 0 <= i < skipped ensures r.after - (sent + [r.after])[i] > WINDOW {
      if i >= dropped {
        assert sent[i] == window[i - dropped];
      }
    }
    assert (sent + [r.after])[skipped..] == left + [r.after];
  }

  lemma TailOfTail(s: seq<int>, a: nat, b: nat)
    requires a + b <= |s|
    ensures s[a..][b..] == s[a + b..]
  {
  }

  /** Appending a stamp keeps the spacing exactly when it is far enough from the one
  `MAX_MSGS` places before it. */
  lemma SpacedAppend(sent: seq<int>, t: int)
    requires Spaced(sent)
    ensures Spaced(sent + [t]) <==> |sent| < MAX_MSGS || t - sent[|sent| - MAX_MSGS] >= WINDOW
  {
    var next, n := sent + [t], |sent|;
    if n >= MAX_MSGS {
      assert next[n - MAX_MSGS + MAX_MSGS] == t && next[n - MAX_MSGS] == sent[n - MAX_MSGS];
      if t - sent[n - MAX_MSGS] >= WINDOW {
        forall i | 0 <= i < |next| - MAX_MSGS ensures next[i + MAX_MSGS] - next[i] >= WINDOW {
          assert i < n - MAX_MSGS ==> sent[i + MAX_MSGS] - sent[i] >= WINDOW;
        }
      }
    }
  }

  /** One check, in terms of the stamp it records. */
  lemma SpacingAfterCheck(window: seq<int>, sent: seq<int>, r: Reads)
    requires HoldsTail(window, sent) && Spaced(sent)
    requires sent != [] ==> sent[|sent| - 1] <= r.now
    requires r.after >= r.now + Wait(DropOld(window, r.now), r.now)
    ensures var left := DropOld(window, r.now);
      Spaced(sent + [r.after]) <==>
      |left| <= MAX_MSGS || r.after - left[|left| - MAX_MSGS] >= WINDOW
  {
    CheckHoldsTail(window, sent, r);
    SpacedAppend(sent, r.after);
    DropOldDrops(window, r.now);
    var left, n := DropOld(window, r.now), |sent|;
    if n >= MAX_MSGS {
      if |left| < MAX_MSGS {
        assert (left + [r.after])[|left|] == r.after;
        assert (sent + [r.after])[n - MAX_MSGS] == sent[n - MAX_MSGS];
      } else {
        assert left[|left| - MAX_MSGS] == sent[n - MAX_MSGS];
      }
    }
  }

  // The rate bound

  /** More than `MAX_MSGS` stamps are left by the drop, and the one `MAX_MSGS` places
  before the new stamp is younger than the oldest. */
  predicate Sharp(window: seq<int>, now: int) {
    var left := DropOld(window, now);
    |left| > MAX_MSGS && left[|left| - MAX_MSGS] > left[0]
  }

  /** When more than `MAX_MSGS` stamps are left, the oldest is exactly one window old: too
  young to drop, too old to wait for. */
  lemma CrowdedAtWindowEnd(window: seq<int>, sent: seq<int>, now: int)
    requires HoldsTail(window, sent) && Spaced(sent)
    requires sent != [] ==> sent[|sent| - 1] <= now
    requires |DropOld(window, now)| > MAX_MSGS
    ensures var left := DropOld(window, now); now - left[0] == WINDOW && Wait(left, now) == 0
  {
    CheckHoldsTail(window, sent, Reads(now, now));
    DropOldDrops(window, now);
    var left, skipped := DropOld(window, now), |sent| - |DropOld(window, now)|;
    assert left[0] == sent[skipped] && sent[skipped + MAX_MSGS] - sent[skipped] >= WINDOW;
  }

  /** Whatever the clock reads after the sleep, a check keeps the bound if and only if it
  is not made at a sharp moment. */
  lemma CheckKeepsSpacingIff(window: seq<int>, sent: seq<int>, now: int)
    requires HoldsTail(window, sent) && Spaced(sent)
    requires sent != [] ==> sent[|sent| - 1] <= now
    ensures (forall after :: after >= now + Wait(DropOld(window, now), now) ==> Spaced(sent + [after])) <==>
            !Sharp(window, now)
  {
    if Sharp(window, now) {
      SharpStampBreaks(window, sent, now);
      assert !Spaced(sent + [now]);
    } else {
      forall after | after >= now + Wait(DropOld(window, now), now) ensures Spaced(sent + [after]) {
        SpacingAfterCheck(window, sent, Reads(now, after));
        if |DropOld(window, now)| > MAX_MSGS {
          CrowdedAtWindowEnd(window, sent, now);
        }
      }
    }
  }

  lemma SharpStampBreaks(window: seq<int>, sent: seq<int>, now: int)
    requires HoldsTail(window, sent) && Spaced(sent) && Sharp(window, now)
    requires sent != [] ==> sent[|sent| - 1] <= now
    ensures Wait(DropOld(window, now), now) == 0 && !Spaced(sent + [now])
  {
    CrowdedAtWindowEnd(window, sent, now);
    SpacingAfterCheck(window, sent, Reads(now, now));
  }

  lemma PhysicalPrefix(run: seq<Reads>)
    requires run != [] && Physical(run)
    ensures Physical(run[..|run| - 1])
  {
    var before := run[..|run| - 1];
    forall j | 0 <= j < |before| ensures SleptEnough(before, j) {
      assert before[..j] == run[..j] && SleptEnough(run, j);
    }
    forall j | 0 < j < |before| ensures InTurn(before, j) {
      assert InTurn(run, j);
    }
  }

  lemma SentAppend(run: seq<Reads>)
    requires run != []
    ensures Sent(run) == Sent(run[..|run| - 1]) + [run[|run| - 1].after]
  {
  }

  lemma LastStamp(run: seq<Reads>)
    requires Physical(run) && run != []
    ensures var before, r := run[..|run| - 1], run[|run| - 1];
      && r.after >= r.now + Wait(DropOld(WindowAfter(before), r.now), r.now)
      && (Sent(before) != [] ==> Sent(before)[|before| - 1] <= r.now)
  {
    assert SleptEnough(run, |run| - 1) && (|run| > 1 ==> InTurn(run, |run| - 1));
  }

  /** The deque is the tail of the sends after every run, sharp moments or not. */
  lemma {:induction false} RunHoldsTail(run: seq<Reads>)
    requires Physical(run)
    ensures HoldsTail(WindowAfter(run), Sent(run))
  {
    if run == [] {
    } else {
      var before, r := run[..|run| - 1], run[|run| - 1];
      PhysicalPrefix(run);
      RunHoldsTail(before);
      LastStamp(run);
      SentAppend(run);
      CheckHoldsTail(WindowAfter(before), Sent(before), r);
    }
  }

  /** No check of the run is made at a sharp moment. */
  ghost predicate NeverSharp(run: seq<Reads>) {
    forall k :: 0 <= k < |run| ==> !Sharp(WindowAfter(run[..k]), run[k].now)
  }

  lemma NeverSharpPrefix(run: seq<Reads>)
    requires run != [] && NeverSharp(run)
    ensures NeverSharp(run[..|run| - 1])
  {
    var before := run[..|run| - 1];
    forall k | 0 <= k < |before| ensures !Sharp(WindowAfter(before[..k]), before[k].now) {
      assert before[..k] == run[..k] && !Sharp(WindowAfter(run[..k]), run[k].now);
    }
  }

  /** Over every run whose clock never runs backwards and in which no check is made at a
  sharp moment, any `MAX_MSGS + 1` consecutive sends span at least the window. */
  lemma {:induction false} RateBound(run: seq<Reads>)
    requires Physical(run) && NeverSharp(run)
    ensures Spaced(Sent(run))
  {
    if run == [] {
    } else {
      var before, r := run[..|run| - 1], run[|run| - 1];
      PhysicalPrefix(run);
      NeverSharpPrefix(run);
      RateBound(before);
      RunHoldsTail(before);
      LastStamp(run);
      SentAppend(run);
      assert !Sharp(WindowAfter(before), r.now);
      CheckKeepsSpacingIff(WindowAfter(before), Sent(before), r.now);
    }
  }

  lemma PhysicalAppend(run: seq<Reads>, r: Reads)
    requires Physical(run) && (run != [] ==> run[|run| - 1].after <= r.now)
    requires r.after >= r.now + Wait(DropOld(WindowAfter(run), r.now), r.now)
    ensures Physical(run + [r])
  {
    var longer := run + [r];
    forall k | 0 <= k < |longer| ensures SleptEnough(longer, k) {
      if k < |run| {
        SleptStays(run, r, k);
      } else {
        SleptLast(run, r);
      }
    }
    forall k | 0 < k < |longer| ensures InTurn(longer, k) {
      assert k < |run| ==> InTurn(run, k);
    }
  }

  lemma SleptLast(run: seq<Reads>, r: Reads)
    requires r.after >= r.now + Wait(DropOld(WindowAfter(run), r.now), r.now)
    ensures SleptEnough(run + [r], |run|)
  {
    assert (run + [r])[..|run|] == run;
  }

  lemma SleptStays(run: seq<Reads>, r: Reads, k: nat)
    requires k < |run| && SleptEnough(run, k)
    ensures SleptEnough(run + [r], k)
  {
    assert (run + [r])[..k] == run[..k];
  }

  /** A run that has kept the bound and reaches a sharp moment goes on to one that breaks it. */
  lemma SharpBreaksRate(run: seq<Reads>, now: int)
    requires Physical(run) && Spaced(Sent(run)) && (run != [] ==> run[|run| - 1].after <= now)
    requires Sharp(WindowAfter(run), now)
    ensures Physical(run + [Reads(now, now)])
    ensures !Spaced(Sent(run + [Reads(now, now)]))
  {
    RunHoldsTail(run);
    SharpStampBreaks(WindowAfter(run), Sent(run), now);
    PhysicalAppend(run, Reads(now, now));
    SentAppend(run + [Reads(now, now)]);
    assert (run + [Reads(now, now)])[..|run|] == run;
  }

  /** A run that has kept the bound keeps it through the next check, whatever its sleep,
  if and only if that check is not made at a sharp moment. */
  lemma NextCheckKeepsRateIff(run: seq<Reads>, now: int)
    requires Physical(run) && Spaced(Sent(run)) && (run != [] ==> run[|run| - 1].after <= now)
    ensures (forall after :: Physical(run + [Reads(now, after)]) ==> Spaced(Sent(run + [Reads(now, after)]))) <==>
            !Sharp(WindowAfter(run), now)
  {
    if Sharp(WindowAfter(run), now) {
      SharpBreaksRate(run, now);
    } else {
      RunHoldsTail(run);
      CheckKeepsSpacingIff(WindowAfter(run), Sent(run), now);
      forall after | Physical(run + [Reads(now, after)]) ensures Spaced(Sent(run + [Reads(now, after)])) {
        var longer := run + [Reads(now, after)];
        assert longer[..|run|] == run;
        LastStamp(longer);
        SentAppend(longer);
      }
    }
  }

  // The size of the deque

  /** A check that holds `MAX_MSGS + 1` stamps, the oldest exactly one window old. */
  predicate AtTheEdge(window: seq<int>, now: int) {
    |window| == 101 && now - window[0] == 10_000_000_000
  }

  /** A 101st stamp is kept only once it is a full window after the oldest. */
  ghost predicate Bounded(window: seq<int>) {
    && |window| <= MAX_MSGS + 1
    && (|window| == MAX_MSGS + 1 ==> window[MAX_MSGS] - window[0] >= WINDOW)
  }

  lemma DropOldAtEdge(window: seq<int>, sent: seq<int>, now: int)
    requires HoldsTail(window, sent) && Bounded(window)
    requires sent != [] ==> sent[|sent| - 1] <= now
    ensures |DropOld(window, now)| <= MAX_MSGS + 1
    ensures |DropOld(window, now)| == MAX_MSGS + 1 <==> AtTheEdge(window, now)
    ensures AtTheEdge(window, now) ==> DropOld(window, now) == window && Wait(window, now) == 0
  {
    DropOldDrops(window, now);
    if window != [] {
      assert window[|window| - 1] == sent[|sent| - 1];
    }
  }

  /** A check keeps the deque bounded if and only if it is not made at the edge. */
  lemma CheckKeepsBoundedIff(window: seq<int>, sent: seq<int>, r: Reads)
    requires HoldsTail(window, sent) && Bounded(window)
    requires sent != [] ==> sent[|sent| - 1] <= r.now
    requires r.after >= r.now + Wait(DropOld(window, r.now), r.now)
    ensures Bounded(DropOld(window, r.now) + [r.after]) <==> !AtTheEdge(window, r.now)
    ensures |DropOld(window, r.now) + [r.after]| <= MAX_MSGS + 1 <==> !AtTheEdge(window, r.now)
  {
    DropOldAtEdge(window, sent, r.now);
    DropOldDrops(window, r.now);
  }

  /** No check of the run is made at the edge. */
  ghost predicate NeverAtTheEdge(run: seq<Reads>) {
    forall k :: 0 <= k < |run| ==> !AtTheEdge(WindowAfter(run[..k]), run[k].now)
  }

  /** Before every check of the run, and after the last, the deque held at most one stamp
  more than the quota. */
  ghost predicate DequeBounded(run: seq<Reads>) {
    forall k :: 0 <= k <= |run| ==> |WindowAfter(run[..k])| <= 101
  }

  lemma NeverAtTheEdgePrefix(run: seq<Reads>)
    requires run != [] && NeverAtTheEdge(run)
    ensures NeverAtTheEdge(run[..|run| - 1])
  {
    var before := run[..|run| - 1];
    forall k | 0 <= k < |before| ensures !AtTheEdge(WindowAfter(before[..k]), before[k].now) {
      assert before[..k] == run[..k] && !AtTheEdge(WindowAfter(run[..k]), run[k].now);
    }
  }

  lemma {:induction false} OffEdgeIsBounded(run: seq<Reads>)
    requires Physical(run) && NeverAtTheEdge(run)
    ensures Bounded(WindowAfter(run))
  {
    if run == [] {
    } else {
      var before, r := run[..|run| - 1], run[|run| - 1];
      PhysicalPrefix(run);
      NeverAtTheEdgePrefix(run);
      OffEdgeIsBounded(before);
      RunHoldsTail(before);
      LastStamp(run);
      assert !AtTheEdge(WindowAfter(before), r.now);
      CheckKeepsBoundedIff(WindowAfter(before), Sent(before), r);
    }
  }

  lemma DequeBoundedPrefix(run: seq<Reads>)
    requires run != [] && DequeBounded(run)
    ensures DequeBounded(run[..|run| - 1])
  {
    var before := run[..|run| - 1];
    forall k | 0 <= k <= |before| ensures |WindowAfter(before[..k])| <= MAX_MSGS + 1 {
      assert before[..k] == run[..k];
    }
  }

  lemma OffEdgeAppend(run: seq<Reads>)
    requires run != [] && NeverAtTheEdge(run[..|run| - 1])
    requires !AtTheEdge(WindowAfter(run[..|run| - 1]), run[|run| - 1].now)
    ensures NeverAtTheEdge(run)
  {
    var before := run[..|run| - 1];
    forall k | 0 <= k < |run| ensures !AtTheEdge(WindowAfter(run[..k]), run[k].now) {
      if k < |before| {
        assert before[..k] == run[..k] && !AtTheEdge(WindowAfter(before[..k]), before[k].now);
      }
    }
  }

  lemma BoundedByLast(run: seq<Reads>)
    requires run != [] && DequeBounded(run)
    ensures var r := run[|run| - 1]; |DropOld(WindowAfter(run[..|run| - 1]), r.now) + [r.after]| <= 101
  {
    assert run[..|run|] == run;
  }

  lemma {:induction false} BoundedStaysOffEdge(run: seq<Reads>)
    requires Physical(run) && DequeBounded(run)
    ensures NeverAtTheEdge(run)
  {
    if run == [] {
    } else {
      var before, r := run[..|run| - 1], run[|run| - 1];
      PhysicalPrefix(run);
      DequeBoundedPrefix(run);
      BoundedStaysOffEdge(before);
      OffEdgeIsBounded(before);
      RunHoldsTail(before);
      LastStamp(run);
      BoundedByLast(run);
      CheckKeepsBoundedIff(WindowAfter(before), Sent(before), r);
      OffEdgeAppend(run);
    }
  }

  lemma {:induction false} OffEdgeUpTo(run: seq<Reads>, k: nat)
    requires k <= |run| && Physical(run) && NeverAtTheEdge(run)
    ensures Physical(run[..k]) && NeverAtTheEdge(run[..k])
    decreases |run|
  {
    if k == |run| {
      assert run[..k] == run;
    } else {
      PhysicalPrefix(run);
      NeverAtTheEdgePrefix(run);
      assert run[..|run| - 1][..k] == run[..k];
      OffEdgeUpTo(run[..|run| - 1], k);
    }
  }

  /** The deque holds at most `MAX_MSGS + 1` stamps throughout a run if and only if no
  check of it is made at the edge. */
  lemma DequeBoundedIff(run: seq<Reads>)
    requires Physical(run)
    ensures DequeBounded(run) <==> NeverAtTheEdge(run)
  {
    if DequeBounded(run) {
      BoundedStaysOffEdge(run);
    }
    if NeverAtTheEdge(run) {
      forall k | 0 <= k <= |run| ensures |WindowAfter(run[..k])| <= MAX_MSGS + 1 {
        OffEdgeUpTo(run, k);
        OffEdgeIsBounded(run[..k]);
      }
    }
  }

  /** While the deque stays bounded no check is made at a sharp moment. */
  lemma OffEdgeIsNeverSharp(run: seq<Reads>)
    requires Physical(run) && NeverAtTheEdge(run)
    ensures NeverSharp(run)
  {
    forall k | 0 <= k < |run| ensures !Sharp(WindowAfter(run[..k]), run[k].now) {
      OffEdgeUpTo(run, k);
      OffEdgeIsBounded(run[..k]);
      RunHoldsTail(run[..k]);
      assert !AtTheEdge(WindowAfter(run[..k]), run[k].now);
      assert k > 0 ==> InTurn(run, k) && Sent(run[..k])[k - 1] == run[k - 1].after;
      DropOldAtEdge(WindowAfter(run[..k]), Sent(run[..k]), run[k].now);
    }
  }

  /** A clock that advances between recording a send and the next check never reads the edge. */
  lemma {:induction false} StrictClockStaysOffEdge(run: seq<Reads>)
    requires Physical(run) && StrictClock(run)
    ensures NeverAtTheEdge(run)
  {
    if run == [] {
    } else {
      var before := run[..|run| - 1];
      PhysicalPrefix(run);
      forall k | 0 < k < |before| ensures Advanced(before, k) {
        assert Advanced(run, k);
      }
      StrictClockStaysOffEdge(before);
      OffEdgeIsBounded(before);
      RunHoldsTail(before);
      assert |run| > 1 ==> Advanced(run, |run| - 1) && Sent(before)[|before| - 1] == before[|before| - 1].after;
      OffEdgeAppend(run);
    }
  }

  /** How many sends fall in the half-open interval from `from` to `to`. */
  function CountIn(sent: seq<int>, from: int, to: int): nat {
    if sent == [] then 0
    else CountIn(sent[1..], from, to) + (if from <= sent[0] < to then 1 else 0)
  }

  lemma {:induction false} CountAtMost(sent: seq<int>, from: int, to: int)
    ensures CountIn(sent, from, to) <= |sent|
  {
    if sent == [] {
    } else {
      CountAtMost(sent[1..], from, to);
    }
  }

  lemma {:induction false} CountStopsAt(sent: seq<int>, from: int, to: int, n: nat)
    requires n <= |sent| && forall i :: n <= i < |sent| ==> sent[i] >= to
    ensures CountIn(sent, from, to) <= n
  {
    if sent == [] {
    } else {
      CountStopsAt(sent[1..], from, to, if n == 0 then 0 else n - 1);
    }
  }

  /** No half-open interval as long as the window holds more than `MAX_MSGS` sends. */
  lemma {:induction false} IntervalBound(sent: seq<int>, from: int)
    requires Rising(sent) && Spaced(sent)
    ensures CountIn(sent, from, from + WINDOW) <= MAX_MSGS
  {
    if |sent| <= MAX_MSGS {
      CountAtMost(sent, from, from + WINDOW);
    } else if sent[0] >= from {
      assert sent[0 + MAX_MSGS] - sent[0] >= WINDOW;
      CountStopsAt(sent, from, from + WINDOW, MAX_MSGS);
    } else {
      var rest := sent[1..];
      assert Spaced(rest) by {
        forall i | 0 <= i < |rest| - MAX_MSGS ensures rest[i + MAX_MSGS] - rest[i] >= WINDOW {
          assert sent[i + 1 + MAX_MSGS] - sent[i + 1] >= WINDOW;
        }
      }
      IntervalBound(rest, from);
    }
  }

  /** The rate limit as documented, for every run in which no check is made at a sharp moment. */
  lemma RunIntervalBound(run: seq<Reads>, from: int)
    requires Physical(run) && NeverSharp(run)
    ensures CountIn(Sent(run), from, from + 10_000_000_000) <= 100
  {
    RateBound(run);
    RunHoldsTail(run);
    IntervalBound(Sent(run), from);
  }

  /** So it holds while the deque stays bounded, and under every clock that advances strictly. */
  lemma StrictClockKeepsRate(run: seq<Reads>, from: int)
    requires Physical(run) && (NeverAtTheEdge(run) || StrictClock(run))
    ensures Spaced(Sent(run)) && DequeBounded(run)
    ensures CountIn(Sent(run), from, from + 10_000_000_000) <= 100
  {
    if StrictClock(run) {
      StrictClockStaysOffEdge(run);
    }
    DequeBoundedIff(run);
    OffEdgeIsNeverSharp(run);
    RateBound(run);
    RunIntervalBound(run, from);
  }

  // A clock that may stand still

  /** A hundred sends one nanosecond apart, then two checks that both read the instant
  at which the first send is exactly one window old. */
  function StalledRun(n: nat): seq<Reads>
    requires n <= MAX_MSGS + 2
  {
    seq(n, k requires 0 <= k => if k < MAX_MSGS then Reads(k, k) else Reads(WINDOW, WINDOW))
  }

  lemma {:induction false} StalledRunKeepsAll(n: nat)
    requires n <= MAX_MSGS + 2
    ensures WindowAfter(StalledRun(n)) == Sent(StalledRun(n))
  {
    if n == 0 {
    } else {
      var run := StalledRun(n);
      assert run[..n - 1] == StalledRun(n - 1);
      StalledRunKeepsAll(n - 1);
      var before := Sent(StalledRun(n - 1));
      assert DropOld(before, run[n - 1].now) == before;
      assert Sent(run) == before + [run[n - 1].after];
    }
  }

  /** With a clock that only never runs backwards, the bound fails. */
  lemma StandingClockBreaksRateBound()
    ensures Physical(StalledRun(MAX_MSGS + 2))
    ensures !Spaced(Sent(StalledRun(MAX_MSGS + 2)))
    ensures |WindowAfter(StalledRun(MAX_MSGS + 2))| == MAX_MSGS + 2
  {
    var run := StalledRun(MAX_MSGS + 2);
    StalledRunKeepsAll(MAX_MSGS + 2);
    forall k | 0 <= k < |run| ensures SleptEnough(run, k) {
      assert run[..k] == StalledRun(k);
      StalledRunKeepsAll(k);
      assert DropOld(Sent(StalledRun(k)), run[k].now) == Sent(StalledRun(k));
    }
    assert Sent(run)[1 + MAX_MSGS] - Sent(run)[1] < WINDOW;
  }
}
