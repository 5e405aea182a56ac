/** What one run of the feed reports, session by session, and what decides its end. */
module FeedOutcome {
  import opened Collections
  import opened Backoff
  import opened FeedRunner

  /** Exactly `n` short sessions come directly before session `k`. */
  ghost predicate ShortsBefore(sessions: seq<Session>, k: nat, n: nat)
    requires k <= |sessions|
  {
    EndsInShorts(sessions, k, n) && !EndsInShorts(sessions, k, n + 1)
  }

  lemma ShortsBeforeIsStreak(sessions: seq<Session>, k: nat, n: nat)
    requires k <= |sessions|
    ensures ShortsBefore(sessions, k, n) <==> n == Streak(sessions, 0, k)
  {
    StreakCountsShorts(sessions, k, n);
    StreakCountsShorts(sessions, k, n + 1);
  }

  lemma {:induction false} EventAt(config: RunnerConfig, sessions: seq<Session>, a: nat, k: nat)
    requires k < Feed(config, sessions, a).consumed <= |sessions| && sessions[k].outcome.Disconnected?
    ensures var events, n := Feed(config, sessions, a).events, Streak(sessions, a, k);
      && k < |events|
      && events[k] == SessionEnded(n, sessions[k].uptimeSecs, n == 0 && sessions[k].uptimeSecs < 5)
    decreases k
  {
    if k == 0 {
      assert Streak(sessions, a, 0) == a;
    } else {
      StreakShift(sessions, a, k);
      assert Streak(sessions, a, 0) == a;
      EventAt(config, sessions[1..], Streak(sessions, a, 1), k - 1);
    }
  }

  lemma {:induction false} ConsumesWhatIsThere(config: RunnerConfig, sessions: seq<Session>, a: nat)
    ensures Feed(config, sessions, a).consumed <= |sessions|
    decreases sessions
  {
    if sessions == [] {
    } else {
      ConsumesWhatIsThere(config, sessions[1..], 0);
      ConsumesWhatIsThere(config, sessions[1..], a + 1);
    }
  }

  /** Every session that a run sees disconnect is reported in its place: with the number of
  short sessions directly before it as its attempt, its own uptime, and as a cascade start
  exactly when it is a first attempt shorter than five seconds. */
  lemma SessionIsReported(config: RunnerConfig, sessions: seq<Session>, k: nat, n: nat)
    requires k < Feed(config, sessions, 0).consumed && k < |sessions|
    requires sessions[k].outcome.Disconnected? && ShortsBefore(sessions, k, n)
    ensures k < |Feed(config, sessions, 0).events|
    ensures Feed(config, sessions, 0).events[k] ==
      SessionEnded(n, sessions[k].uptimeSecs, n == 0 && sessions[k].uptimeSecs < 5)
  {
    ConsumesWhatIsThere(config, sessions, 0);
    ShortsBeforeIsStreak(sessions, k, n);
    EventAt(config, sessions, 0, k);
  }

  /** Beyond one event for each session that disconnects, only giving up is reported. */
  lemma {:induction false} NothingElseReported(config: RunnerConfig, sessions: seq<Session>, a: nat)
    ensures var run := Feed(config, sessions, a);
      match run.end
      case CleanStop => |run.events| == run.consumed - 1
      case Running => |run.events| == run.consumed
      case GaveUp(attempts) =>
        |run.events| == run.consumed + 1 && run.events[run.consumed] == ReconnectsExhausted(attempts)
    decreases sessions
  {
    if sessions == [] {
    } else {
      NothingElseReported(config, sessions[1..], 0);
      NothingElseReported(config, sessions[1..], a + 1);
    }
  }

  // The waits

  function PowerOfTwo(n: nat): nat {
    if n == 0 then 1 else 2 * PowerOfTwo(n - 1)
  }

  /** The wait before an attempt: none before the first, then the base doubled up to four
  times, never above the cap. */
  function WaitBefore(config: RunnerConfig, attempt: nat): seq<nat> {
    if attempt == 0 then []
    else
      var doublings := if attempt <= 5 then attempt - 1 else 4;
      var wait := config.reconnectDelaySecs * PowerOfTwo(doublings);
      [if wait <= config.maxReconnectDelaySecs then wait else config.maxReconnectDelaySecs]
  }

  /** The waits before the first `n` sessions, when `a` short ones came before them. */
  function WaitsFor(config: RunnerConfig, sessions: seq<Session>, a: nat, n: nat): seq<nat>
    requires n <= |sessions|
  {
    if n == 0 then []
    else WaitsFor(config, sessions, a, n - 1) + WaitBefore(config, Streak(sessions, a, n - 1))
  }

  lemma {:induction false} PowersAgree(n: nat)
    ensures PowerOfTwo(n) == Pow2(n)
  {
    if n == 0 {
    } else {
      PowersAgree(n - 1);
    }
  }

  lemma WaitIsDelay(config: RunnerConfig, attempt: nat)
    requires config.maxReconnectDelaySecs <= U64_MAX
    ensures DelayBefore(config, attempt) == WaitBefore(config, attempt)
  {
    if attempt > 0 {
      DelayDoublesUpToCap(config, attempt);
      PowersAgree(Min(attempt - 1, 4));
    }
  }

  lemma {:induction false} WaitsShift(config: RunnerConfig, sessions: seq<Session>, a: nat, n: nat)
    requires 0 < n <= |sessions|
    ensures WaitsFor(config, sessions, a, n) ==
      WaitBefore(config, a) + WaitsFor(config, sessions[1..], Streak(sessions, a, 1), n - 1)
  {
    if n == 1 {
      assert Streak(sessions, a, 0) == a && WaitsFor(config, sessions, a, 0) == [];
    } else {
      WaitsShift(config, sessions, a, n - 1);
      StreakShift(sessions, a, n - 1);
    }
  }

  /** The run waits before each session by its attempt number, and at no other time. */
  lemma {:induction false} FeedWaits(config: RunnerConfig, sessions: seq<Session>, a: nat)
    requires config.maxReconnectDelaySecs <= U64_MAX
    ensures var run := Feed(config, sessions, a);
      run.consumed <= |sessions| && run.delays == WaitsFor(config, sessions, a, run.consumed)
    decreases sessions
  {
    ConsumesWhatIsThere(config, sessions, a);
    WaitIsDelay(config, a);
    if sessions == [] {
    } else {
      assert Streak(sessions, a, 0) == a;
      FeedWaits(config, sessions[1..], Streak(sessions, a, 1));
      WaitsShift(config, sessions, a, Feed(config, sessions, a).consumed);
    }
  }

  // The end

  /** The first `n - 1` sessions disconnect, the next does not, and no block of `k` short
  ones is completed before it. */
  ghost predicate StopsCleanlyAt(sessions: seq<Session>, n: nat, k: nat) {
    && 0 < n <= |sessions|
    && (forall i :: 0 <= i < n - 1 ==> sessions[i].outcome.Disconnected?)
    && !sessions[n - 1].outcome.Disconnected?
    && forall m :: 0 <= m < n ==> !EndsInShorts(sessions, m, k)
  }

  lemma {:induction false} DecidedAtEnd(config: RunnerConfig, sessions: seq<Session>, a: nat)
    requires a <= config.maxReconnectAttempts
    ensures var run := Feed(config, sessions, a);
      && run.consumed <= |sessions|
      && (forall i :: 0 <= i < run.consumed ==>
            (sessions[i].outcome.Disconnected? <==> i < run.consumed - 1 || !run.end.CleanStop?))
      && (forall m :: 0 <= m < run.consumed ==> Streak(sessions, a, m) <= config.maxReconnectAttempts)
      && (run.end.CleanStop? ==> run.consumed > 0)
      && (run.end.Running? ==>
            run.consumed == |sessions| && Streak(sessions, a, |sessions|) <= config.maxReconnectAttempts)
    decreases sessions
  {
    assert Streak(sessions, a, 0) == a;
    if sessions == [] {
    } else if !sessions[0].outcome.Disconnected? {
    } else {
      var b, run := Streak(sessions, a, 1), Feed(config, sessions, a);
      if b <= config.maxReconnectAttempts {
        DecidedAtEnd(config, sessions[1..], b);
        forall m | 0 < m <= run.consumed ensures Streak(sessions, a, m) == Streak(sessions[1..], b, m - 1) {
          StreakShift(sessions, a, m);
        }
        assert forall i | 0 <= i < |sessions| - 1 :: sessions[1..][i] == sessions[i + 1];
      }
    }
  }

  lemma NoBlockWithin(sessions: seq<Session>, n: nat, k: nat)
    requires n <= |sessions| && forall m :: 0 <= m < n ==> Streak(sessions, 0, m) < k
    ensures forall m :: 0 <= m < n ==> !EndsInShorts(sessions, m, k)
  {
    forall m | 0 <= m < n ensures !EndsInShorts(sessions, m, k) {
      StreakCountsShorts(sessions, m, k);
    }
  }

  lemma CleanStopIsFirst(config: RunnerConfig, sessions: seq<Session>, n: nat, k: nat)
    requires k == config.maxReconnectAttempts + 1 && StopsCleanlyAt(sessions, n, k)
    ensures Feed(config, sessions, 0).end.CleanStop? && Feed(config, sessions, 0).consumed == n
  {
    var run := Feed(config, sessions, 0);
    var c := run.consumed;
    DecidedAtEnd(config, sessions, 0);
    assert c >= n ==> (sessions[n - 1].outcome.Disconnected? <==> n - 1 < c - 1 || !run.end.CleanStop?);
    assert c > 0 ==> (sessions[c - 1].outcome.Disconnected? <==> !run.end.CleanStop?);
    if run.end.GaveUp? {
      ExhaustionIsExact(config, sessions, c);
      assert false;
    }
  }

  /** The run stops cleanly exactly at the first session that does not disconnect, if no
  block of `maxReconnectAttempts + 1` short sessions comes first. */
  lemma CleanStopIsExact(config: RunnerConfig, sessions: seq<Session>, n: nat)
    ensures var run := Feed(config, sessions, 0);
      (run.end.CleanStop? && run.consumed == n) <==>
      StopsCleanlyAt(sessions, n, config.maxReconnectAttempts + 1)
  {
    var run := Feed(config, sessions, 0);
    DecidedAtEnd(config, sessions, 0);
    if StopsCleanlyAt(sessions, n, config.maxReconnectAttempts + 1) {
      CleanStopIsFirst(config, sessions, n, config.maxReconnectAttempts + 1);
    }
    if run.end.CleanStop? {
      NoBlockWithin(sessions, run.consumed, config.maxReconnectAttempts + 1);
    }
  }
}
