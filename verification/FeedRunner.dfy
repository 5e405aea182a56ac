/** The reconnecting feed runner. One session is abstracted to how it ended and
how long it ran; a run consumes a stream of sessions. */
module FeedRunner {
  import opened Backoff

  const STABLE_SESSION_SECS: nat := 60
  const CASCADE_DETECT_SECS: nat := 5

  datatype SessionOutcome = ShutdownRequested | ReceiverDropped | Disconnected

  datatype Session = Session(outcome: SessionOutcome, uptimeSecs: nat)

  datatype Event =
    | SessionEnded(attempt: nat, uptimeSecs: nat, cascadeStart: bool)
    | ReconnectsExhausted(attempts: nat)
    | TokenRefresh(cycle: nat)
    | RefreshExhausted(cycles: nat)

  /** `Running` means the stream of sessions ended first. */
  datatype FeedEnd = CleanStop | GaveUp(attempts: nat) | Running

  /** `delays` holds one entry a reconnect; `consumed` counts the sessions run. */
  datatype FeedRun = FeedRun(events: seq<Event>, delays: seq<nat>, consumed: nat, end: FeedEnd) {
    function After(event: seq<Event>, delay: seq<nat>): FeedRun {
      FeedRun(event + events, delay + delays, consumed + 1, end)
    }
  }

  predicate IsCascadeStart(attempt: nat, uptimeSecs: nat) {
    attempt == 0 && uptimeSecs < CASCADE_DETECT_SECS
  }

  function Ended(attempt: nat, session: Session): Event {
    SessionEnded(attempt, session.uptimeSecs, IsCascadeStart(attempt, session.uptimeSecs))
  }

  function DelayBefore(config: RunnerConfig, attempts: nat): seq<nat> {
    if attempts > 0 then [ReconnectDelay(config, attempts)] else []
  }

  /** The run of the feed from a session that starts as attempt `attempts`. */
  function Feed(config: RunnerConfig, sessions: seq<Session>, attempts: nat): FeedRun
    decreases sessions
  {
    if sessions == [] then FeedRun([], [], 0, Running)
    else
      var delay, ended := DelayBefore(config, attempts), Ended(attempts, sessions[0]);
      if !sessions[0].outcome.Disconnected? then FeedRun([], delay, 1, CleanStop)
      else if sessions[0].uptimeSecs >= STABLE_SESSION_SECS then
        Feed(config, sessions[1..], 0).After([ended], delay)
      else if attempts + 1 > config.maxReconnectAttempts then
        FeedRun([ended, ReconnectsExhausted(attempts + 1)], delay, 1, GaveUp(attempts + 1))
      else
        Feed(config, sessions[1..], attempts + 1).After([ended], delay)
  }

  /** What is already recorded, followed by the rest of a run. */
  ghost function Joined(events: seq<Event>, delays: seq<nat>, consumed: nat, rest: FeedRun): FeedRun {
    FeedRun(events + rest.events, delays + rest.delays, consumed + rest.consumed, rest.end)
  }

  /** What the loop has recorded and what is still to come make up one run. */
  ghost predicate Continues(run: FeedRun, events: seq<Event>, delays: seq<nat>, consumed: nat,
                            config: RunnerConfig, left: seq<Session>, attempts: nat) {
    run == Joined(events, delays, consumed, Feed(config, left, attempts))
  }

  /** One session moves from the rest of the run to what is recorded. */
  lemma JoinOne(run: FeedRun, events: seq<Event>, delays: seq<nat>, consumed: nat,
                config: RunnerConfig, left: seq<Session>, attempts: nat, more: seq<nat>, ended: Event)
    requires left != [] && Continues(run, events, delays, consumed, config, left, attempts)
    requires more == delays + DelayBefore(config, attempts) && ended == Ended(attempts, left[0])
    ensures if !left[0].outcome.Disconnected? then run == FeedRun(events, more, consumed + 1, CleanStop)
            else if left[0].uptimeSecs >= STABLE_SESSION_SECS then
              Continues(run, events + [ended], more, consumed + 1, config, left[1..], 0)
            else if attempts + 1 > config.maxReconnectAttempts then
              run == FeedRun(events + [ended] + [ReconnectsExhausted(attempts + 1)], more, consumed + 1,
                             GaveUp(attempts + 1))
            else Continues(run, events + [ended], more, consumed + 1, config, left[1..], attempts + 1)
  {
    var delay := DelayBefore(config, attempts);
    var next := Feed(config, left[1..], if left[0].uptimeSecs >= STABLE_SESSION_SECS then 0 else attempts + 1);
    assert events + ([ended] + next.events) == events + [ended] + next.events;
    assert delays + (delay + next.delays) == delays + delay + next.delays;
  }

  method RunFeed(config: RunnerConfig, sessions: seq<Session>) returns (run: FeedRun)
    ensures run == Feed(config, sessions, 0)
  {
    var attempts: nat, i := 0, 0;
    var events, delays: seq<nat> := [], [];
    ghost var all := Feed(config, sessions, 0);
    while i < |sessions|
      invariant 0 <= i <= |sessions|
      invariant Continues(all, events, delays, i, config, sessions[i..], attempts)
    {
      var session := sessions[i];
      assert sessions[i..][1..] == sessions[i + 1..];
      JoinOne(all, events, delays, i, config, sessions[i..], attempts, delays + DelayBefore(config, attempts),
              Ended(attempts, session));
      i := i + 1;
      if attempts > 0 {
        delays := delays + [ReconnectDelay(config, attempts)];
      }
      match session.outcome
      case ShutdownRequested =>
        return FeedRun(events, delays, i, CleanStop);
      case ReceiverDropped =>
        return FeedRun(events, delays, i, CleanStop);
      case Disconnected =>
        events := events + [Ended(attempts, session)];
        if session.uptimeSecs >= STABLE_SESSION_SECS {
          attempts := 0;
        } else {
          attempts := attempts + 1;
          if attempts > config.maxReconnectAttempts {
            events := events + [ReconnectsExhausted(attempts)];
            return FeedRun(events, delays, i, GaveUp(attempts));
          }
        }
    }
    run := FeedRun(events, delays, i, Running);
  }

  // When the runner gives up

  predicate Short(session: Session) {
    session.outcome.Disconnected? && session.uptimeSecs < 60
  }

  /** The last `k` of the first `n` sessions are all short. */
  ghost predicate EndsInShorts(sessions: seq<Session>, n: nat, k: nat)
    requires n <= |sessions|
  {
    k <= n && forall i :: n - k <= i < n ==> Short(sessions[i])
  }

  /** After `n` sessions, all disconnected, a block of `k` short ones has just been
  completed for the first time. */
  ghost predicate FirstBlockEndsAt(sessions: seq<Session>, n: nat, k: nat) {
    && n <= |sessions|
    && (forall i :: 0 <= i < n ==> sessions[i].outcome.Disconnected?)
    && EndsInShorts(sessions, n, k)
    && forall m :: 0 <= m < n ==> !EndsInShorts(sessions, m, k)
  }

  /** Give-up, in terms of a run that already has `a` short sessions behind it. */
  ghost predicate StreakReaches(sessions: seq<Session>, a: nat, n: nat, k: nat) {
    && 0 < n <= |sessions|
    && (forall i :: 0 <= i < n ==> sessions[i].outcome.Disconnected?)
    && Streak(sessions, a, n) == k
    && forall m :: 0 < m < n ==> Streak(sessions, a, m) < k
  }

  /** The number of consecutive short sessions that the first `n` end in, counting
  `a` earlier ones if all `n` are short. */
  function Streak(sessions: seq<Session>, a: nat, n: nat): nat
    requires n <= |sessions|
  {
    if n == 0 then a
    else if Short(sessions[n - 1]) then Streak(sessions, a, n - 1) + 1
    else 0
  }

  lemma {:induction false} StreakShift(sessions: seq<Session>, a: nat, n: nat)
    requires 0 < n <= |sessions|
    ensures Streak(sessions, a, n) == Streak(sessions[1..], Streak(sessions, a, 1), n - 1)
  {
    if n == 1 {
    } else {
      StreakShift(sessions, a, n - 1);
      assert sessions[1..][n - 2] == sessions[n - 1];
    }
  }

  lemma StreakReachesShift(sessions: seq<Session>, a: nat, n: nat, k: nat)
    requires sessions != [] && n > 1
    ensures StreakReaches(sessions, a, n, k) <==>
      && sessions[0].outcome.Disconnected?
      && Streak(sessions, a, 1) < k
      && StreakReaches(sessions[1..], Streak(sessions, a, 1), n - 1, k)
  {
    var tail, b := sessions[1..], Streak(sessions, a, 1);
    if n <= |sessions| {
      forall m | 0 < m <= n ensures Streak(sessions, a, m) == Streak(tail, b, m - 1) {
        StreakShift(sessions, a, m);
      }
      assert forall i | 0 < i < n :: sessions[i] == tail[i - 1];
      if StreakReaches(tail, b, n - 1, k) && sessions[0].outcome.Disconnected? && b < k {
        forall i | 0 <= i < n ensures sessions[i].outcome.Disconnected? {
          assert i > 0 ==> tail[i - 1].outcome.Disconnected?;
        }
        forall m | 0 < m < n ensures Streak(sessions, a, m) < k {
          assert m > 1 ==> Streak(tail, b, m - 1) < k;
        }
      }
      if StreakReaches(sessions, a, n, k) {
        assert Streak(sessions, a, 1) < k;
        forall i | 0 <= i < n - 1 ensures tail[i].outcome.Disconnected? {
          assert sessions[i + 1].outcome.Disconnected?;
        }
        forall m | 0 < m < n - 1 ensures Streak(tail, b, m) < k {
          assert Streak(sessions, a, m + 1) < k;
        }
      }
    }
  }

  lemma {:induction false} GivesUpAtStreak(config: RunnerConfig, sessions: seq<Session>, a: nat, n: nat)
    requires a <= config.maxReconnectAttempts
    ensures var run := Feed(config, sessions, a);
      (run.end.GaveUp? && run.consumed == n) <==>
      StreakReaches(sessions, a, n, config.maxReconnectAttempts + 1)
    ensures var run := Feed(config, sessions, a);
      run.end.GaveUp? ==> run.end.attempts == config.maxReconnectAttempts + 1
    decreases sessions
  {
    if sessions == [] {
    } else {
      var b := Streak(sessions, a, 1);
      assert Streak(sessions, a, 0) == a;
      if b <= config.maxReconnectAttempts {
        GivesUpAtStreak(config, sessions[1..], b, if n > 0 then n - 1 else 0);
        if n > 1 {
          StreakReachesShift(sessions, a, n, config.maxReconnectAttempts + 1);
        }
      } else if n > 1 {
        StreakReachesShift(sessions, a, n, config.maxReconnectAttempts + 1);
      }
    }
  }

  lemma {:induction false} StreakCountsShorts(sessions: seq<Session>, n: nat, k: nat)
    requires n <= |sessions|
    ensures Streak(sessions, 0, n) <= n
    ensures EndsInShorts(sessions, n, k) <==> Streak(sessions, 0, n) >= k
  {
    if n == 0 {
    } else {
      StreakCountsShorts(sessions, n - 1, if k > 0 then k - 1 else 0);
      if k > 0 && EndsInShorts(sessions, n, k) {
        assert Short(sessions[n - 1]);
      }
    }
  }

  /** The runner gives up exactly at the end of the first block of
  `maxReconnectAttempts + 1` consecutive short sessions. */
  lemma ExhaustionIsExact(config: RunnerConfig, sessions: seq<Session>, n: nat)
    ensures var run := Feed(config, sessions, 0);
      (run.end.GaveUp? && run.consumed == n) <==>
      FirstBlockEndsAt(sessions, n, config.maxReconnectAttempts + 1)
    ensures var run := Feed(config, sessions, 0);
      run.end.GaveUp? ==> run.end.attempts == config.maxReconnectAttempts + 1
  {
    var k := config.maxReconnectAttempts + 1;
    GivesUpAtStreak(config, sessions, 0, n);
    if 0 < n <= |sessions| {
      forall m | 0 <= m <= n ensures EndsInShorts(sessions, m, k) <==> Streak(sessions, 0, m) >= k {
        StreakCountsShorts(sessions, m, k);
      }
      assert Streak(sessions, 0, n) <= Streak(sessions, 0, n - 1) + 1;
    }
  }

  function Sum(delays: seq<nat>): nat {
    if delays == [] then 0 else delays[0] + Sum(delays[1..])
  }

  /** A run of nothing but short sessions sleeps exactly the whole backoff block. */
  lemma {:induction false} ShortRunSleepsWholeBlock(config: RunnerConfig, sessions: seq<Session>, a: nat)
    requires a <= config.maxReconnectAttempts
    requires |sessions| > config.maxReconnectAttempts - a
    requires forall i :: 0 <= i <= config.maxReconnectAttempts - a ==> Short(sessions[i])
    ensures Sum(Feed(config, sessions, a).delays) + (if a > 0 then TotalDelay(config, a - 1) else 0)
      == TotalDelay(config, config.maxReconnectAttempts)
    decreases sessions
  {
    var run := Feed(config, sessions, a);
    if a < config.maxReconnectAttempts {
      assert forall i | 0 <= i < |sessions| - 1 :: sessions[1..][i] == sessions[i + 1];
      ShortRunSleepsWholeBlock(config, sessions[1..], a + 1);
      var delay := DelayBefore(config, a);
      assert run.delays == delay + Feed(config, sessions[1..], a + 1).delays;
      if a > 0 {
        assert run.delays[0] == delay[0] && run.delays[1..] == Feed(config, sessions[1..], a + 1).delays;
      } else {
        assert run.delays == Feed(config, sessions[1..], a + 1).delays;
      }
    } else if a > 0 {
      assert run.delays[1..] == [];
    }
  }
}
