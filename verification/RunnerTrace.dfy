/** The grammar of the event traces that the runner and its supervisor emit. */
module RunnerTrace {
  import opened Backoff
  import opened FeedRunner
  import opened Supervisor

  /** What each event must say on its own, with `max` the reconnect attempts allowed. */
  ghost predicate WellFormed(max: nat, e: Event) {
    match e
    case SessionEnded(attempt, uptime, cascade) =>
      attempt <= max && (cascade <==> attempt == 0 && uptime < 5)
    case ReconnectsExhausted(attempts) => attempts == max + 1
    case _ => true
  }

  /** Which event may come directly after which. */
  ghost predicate Follows(max: nat, e: Event, next: Event) {
    match e
    case SessionEnded(attempt, uptime, _) =>
      if uptime >= 60 then next.SessionEnded? && next.attempt == 0
      else if attempt < max then next.SessionEnded? && next.attempt == attempt + 1
      else next.ReconnectsExhausted?
    case ReconnectsExhausted(_) => next.TokenRefresh? || next.RefreshExhausted?
    case TokenRefresh(_) => next.SessionEnded? && next.attempt == 0
    case RefreshExhausted(_) => false
  }

  ghost predicate Grammatical(max: nat, trace: seq<Event>) {
    && (forall i :: 0 <= i < |trace| ==> WellFormed(max, trace[i]))
    && forall i :: 0 < i < |trace| ==> Follows(max, trace[i - 1], trace[i])
  }

  ghost predicate StartsAt(attempt: nat, trace: seq<Event>) {
    trace != [] ==> trace[0].SessionEnded? && trace[0].attempt == attempt
  }

  lemma GrammaticalConcat(max: nat, a: seq<Event>, b: seq<Event>)
    requires Grammatical(max, a) && Grammatical(max, b)
    requires a != [] && b != [] ==> Follows(max, a[|a| - 1], b[0])
    ensures Grammatical(max, a + b)
  {
    var c := a + b;
    forall i | 0 < i < |c| ensures Follows(max, c[i - 1], c[i]) {
      if i > |a| {
        assert Follows(max, b[i - |a| - 1], b[i - |a|]);
      }
    }
  }

  function CountRefreshes(trace: seq<Event>): nat {
    if trace == [] then 0
    else CountRefreshes(trace[..|trace| - 1]) + (if trace[|trace| - 1].TokenRefresh? then 1 else 0)
  }

  /** Refreshes are numbered on from `base`, and giving up names the next number. */
  ghost predicate Numbered(base: nat, trace: seq<Event>) {
    forall i :: 0 <= i < |trace| ==> NumberedAt(base, trace, i)
  }

  ghost predicate NumberedAt(base: nat, trace: seq<Event>, i: nat)
    requires i < |trace|
  {
    && (trace[i].TokenRefresh? ==> trace[i].cycle == base + CountRefreshes(trace[..i]) + 1)
    && (trace[i].RefreshExhausted? ==> trace[i].cycles == base + CountRefreshes(trace[..i]) + 1)
  }

  lemma {:induction false} CountOfConcat(a: seq<Event>, b: seq<Event>)
    ensures CountRefreshes(a + b) == CountRefreshes(a) + CountRefreshes(b)
  {
    if b == [] {
      assert a + b == a;
    } else {
      assert (a + b)[..|a + b| - 1] == a + b[..|b| - 1];
      CountOfConcat(a, b[..|b| - 1]);
    }
  }

  lemma NumberedConcat(base: nat, a: seq<Event>, b: seq<Event>)
    requires Numbered(base, a) && Numbered(base + CountRefreshes(a), b)
    ensures Numbered(base, a + b)
  {
    var c := a + b;
    forall i | 0 <= i < |c| ensures NumberedAt(base, c, i) {
      if i < |a| {
        assert c[..i] == a[..i] && NumberedAt(base, a, i);
      } else {
        assert c[..i] == a + b[..i - |a|] && NumberedAt(base + CountRefreshes(a), b, i - |a|);
        CountOfConcat(a, b[..i - |a|]);
      }
    }
  }

  ghost predicate OfOneFeed(e: Event) {
    e.SessionEnded? || e.ReconnectsExhausted?
  }

  lemma {:induction false} NoRefreshToCount(trace: seq<Event>)
    requires forall i :: 0 <= i < |trace| ==> OfOneFeed(trace[i])
    ensures CountRefreshes(trace) == 0 && forall base :: Numbered(base, trace)
  {
    if trace == [] {
    } else {
      NoRefreshToCount(trace[..|trace| - 1]);
      assert OfOneFeed(trace[|trace| - 1]);
    }
    assert forall base, i | 0 <= i < |trace| && OfOneFeed(trace[i]) :: NumberedAt(base, trace, i);
  }

  /** The trace of one feed: attempts count up, restart after a stable session, and
  giving up is the last event. */
  lemma {:induction false} FeedTrace(config: RunnerConfig, sessions: seq<Session>, a: nat)
    requires a <= config.maxReconnectAttempts
    ensures var run := Feed(config, sessions, a);
      && Grammatical(config.maxReconnectAttempts, run.events)
      && StartsAt(a, run.events)
      && (forall i :: 0 <= i < |run.events| ==> OfOneFeed(run.events[i]))
      && (run.end.GaveUp? <==> run.events != [] && run.events[|run.events| - 1].ReconnectsExhausted?)
    decreases sessions
  {
    if sessions == [] || !sessions[0].outcome.Disconnected? {
    } else if sessions[0].uptimeSecs >= STABLE_SESSION_SECS {
      FeedTrace(config, sessions[1..], 0);
      TraceGoesOn(config.maxReconnectAttempts, a, sessions[0], Feed(config, sessions[1..], 0).events);
    } else if a + 1 <= config.maxReconnectAttempts {
      FeedTrace(config, sessions[1..], a + 1);
      TraceGoesOn(config.maxReconnectAttempts, a, sessions[0], Feed(config, sessions[1..], a + 1).events);
    }
  }

  lemma TraceGoesOn(max: nat, a: nat, session: Session, rest: seq<Event>)
    requires a <= max && Grammatical(max, rest) && forall i :: 0 <= i < |rest| ==> OfOneFeed(rest[i])
    requires if session.uptimeSecs >= 60 then StartsAt(0, rest) else a < max && StartsAt(a + 1, rest)
    ensures var trace := [Ended(a, session)] + rest;
      && Grammatical(max, trace) && StartsAt(a, trace)
      && (forall i :: 0 <= i < |trace| ==> OfOneFeed(trace[i]))
      && (trace[|trace| - 1].ReconnectsExhausted? <==>
            rest != [] && rest[|rest| - 1].ReconnectsExhausted?)
  {
    GrammaticalConcat(max, [Ended(a, session)], rest);
  }

  /** A cycle that gives up, followed by what the supervisor reports about it. */
  lemma CycleTrace(config: SupervisedConfig, sessions: seq<Session>, report: Event, cycle: nat)
    requires Feed(config.runner, sessions, 0).end.GaveUp?
    requires report == TokenRefresh(cycle + 1) || report == RefreshExhausted(cycle + 1)
    ensures var trace := Feed(config.runner, sessions, 0).events + [report];
      && Grammatical(config.runner.maxReconnectAttempts, trace)
      && StartsAt(0, trace)
      && Numbered(cycle, trace)
      && CountRefreshes(trace) == if report.TokenRefresh? then 1 else 0
  {
    var feed := Feed(config.runner, sessions, 0).events;
    FeedTrace(config.runner, sessions, 0);
    GrammaticalConcat(config.runner.maxReconnectAttempts, feed, [report]);
    NoRefreshToCount(feed);
    assert CountRefreshes([report]) == if report.TokenRefresh? then 1 else 0 by {
      assert [report][..0] == [];
    }
    CountOfConcat(feed, [report]);
    assert NumberedAt(cycle, [report], 0);
    NumberedConcat(cycle, feed, [report]);
  }

  ghost predicate TraceOk(config: SupervisedConfig, cycle: nat, run: SupervisedRun) {
    && Grammatical(config.runner.maxReconnectAttempts, run.events)
    && StartsAt(0, run.events)
    && Numbered(cycle, run.events)
    && run.refreshes == CountRefreshes(run.events)
    && cycle + run.refreshes <= config.maxRefreshCycles
    && (run.end.WsDisconnected? <==> run.events != [] && run.events[|run.events| - 1].RefreshExhausted?)
    && (run.end.WsDisconnected? ==>
          && cycle + run.refreshes == config.maxRefreshCycles
          && run.end.attempts == config.runner.maxReconnectAttempts + 1)
  }

  /** A refreshed cycle in front of a run keeps its trace in order. */
  lemma RefreshedTrace(config: SupervisedConfig, sessions: seq<Session>, cycle: nat,
                       endpoints: seq<Endpoint>, rest: SupervisedRun)
    requires Feed(config.runner, sessions, 0).end.GaveUp?
    requires TraceOk(config, cycle + 1, rest)
    ensures TraceOk(config, cycle, Preceded(Feed(config.runner, sessions, 0).events + [TokenRefresh(cycle + 1)],
                                            1, endpoints, rest))
  {
    var first := Feed(config.runner, sessions, 0).events + [TokenRefresh(cycle + 1)];
    CycleTrace(config, sessions, TokenRefresh(cycle + 1), cycle);
    GrammaticalConcat(config.runner.maxReconnectAttempts, first, rest.events);
    NumberedConcat(cycle, first, rest.events);
    CountOfConcat(first, rest.events);
  }

  lemma LastCycleTrace(config: SupervisedConfig, sessions: seq<Session>, cycle: nat, endpoint: Endpoint)
    requires cycle == config.maxRefreshCycles
    requires Feed(config.runner, sessions, 0).end.GaveUp?
    ensures var feed := Feed(config.runner, sessions, 0);
      TraceOk(config, cycle, SupervisedRun(feed.events + [RefreshExhausted(cycle + 1)], 0, [endpoint],
                                           WsDisconnected(endpoint.url, feed.end.attempts)))
  {
    CycleTrace(config, sessions, RefreshExhausted(cycle + 1), cycle);
    ExhaustionIsExact(config.runner, sessions, Feed(config.runner, sessions, 0).consumed);
  }

  /** A run that ends within its first cycle, other than by giving up. */
  lemma FeedOnlyTrace(config: SupervisedConfig, sessions: seq<Session>, cycle: nat, run: SupervisedRun)
    requires cycle <= config.maxRefreshCycles
    requires run.events == Feed(config.runner, sessions, 0).events
    requires run.refreshes == 0 && !run.end.WsDisconnected?
    ensures TraceOk(config, cycle, run)
  {
    FeedTrace(config.runner, sessions, 0);
    NoRefreshToCount(run.events);
    if run.events != [] {
      assert OfOneFeed(run.events[|run.events| - 1]);
    }
  }

  lemma {:induction false} CyclesTrace(config: SupervisedConfig, cycles: seq<Cycle>, cycle: nat, endpoint: Endpoint)
    requires cycle <= config.maxRefreshCycles
    ensures TraceOk(config, cycle, RunCycles(config, cycles, cycle, endpoint))
    decreases cycles
  {
    var run := RunCycles(config, cycles, cycle, endpoint);
    if cycles == [] {
    } else {
      var c, feed := cycles[0], Feed(config.runner, cycles[0].sessions, 0);
      if feed.end.GaveUp? && cycle == config.maxRefreshCycles {
        LastCycleTrace(config, c.sessions, cycle, endpoint);
      } else if !feed.end.GaveUp? || c.SeesShutdown() {
        FeedOnlyTrace(config, c.sessions, cycle, run);
      } else if c.refresh.RefreshError? {
        CycleTrace(config, c.sessions, TokenRefresh(cycle + 1), cycle);
      } else {
        var rest := RunCycles(config, cycles[1..], cycle + 1, c.refresh.endpoint);
        CyclesTrace(config, cycles[1..], cycle + 1, c.refresh.endpoint);
        RefreshedTrace(config, c.sessions, cycle, [endpoint], rest);
      }
    }
  }

  /** Every supervised trace obeys the grammar; the refresh closure has run once for
  the bootstrap and once for each `TokenRefresh`, numbered 1, 2, 3, ...; and the
  supervisor gives up exactly after `1 + maxRefreshCycles` calls of it. */
  lemma SupervisedTrace(config: SupervisedConfig, bootstrap: RefreshReply, cycles: seq<Cycle>)
    ensures var run := Supervise(config, bootstrap, cycles);
      && Grammatical(config.runner.maxReconnectAttempts, run.events)
      && StartsAt(0, run.events)
      && Numbered(0, run.events)
      && run.refreshes == 1 + CountRefreshes(run.events)
      && run.refreshes <= 1 + config.maxRefreshCycles
      && (run.end.WsDisconnected? <==> run.events != [] && run.events[|run.events| - 1].RefreshExhausted?)
      && (run.end.WsDisconnected? ==>
            run.refreshes == 1 + config.maxRefreshCycles && run.end.attempts == config.runner.maxReconnectAttempts + 1)
  {
    if bootstrap.Refreshed? {
      CyclesTrace(config, cycles, 0, bootstrap.endpoint);
      assert [] + RunCycles(config, cycles, 0, bootstrap.endpoint).events ==
        RunCycles(config, cycles, 0, bootstrap.endpoint).events;
    }
  }

  /** Each `ReconnectsExhausted` closes a block of short sessions, one for every
  attempt number from 0 to `max`. */
  lemma {:induction false} ExhaustionClosesBlock(max: nat, trace: seq<Event>, i: nat, k: nat)
    requires Grammatical(max, trace) && StartsAt(0, trace)
    requires i < |trace| && trace[i].ReconnectsExhausted? && k <= max
    ensures i >= k + 1
    ensures trace[i - 1 - k].SessionEnded? && trace[i - 1 - k].attempt == max - k
    ensures trace[i - 1 - k].uptimeSecs < 60
  {
    if k == 0 {
      assert i > 0 && Follows(max, trace[i - 1], trace[i]);
      assert WellFormed(max, trace[i - 1]);
    } else {
      ExhaustionClosesBlock(max, trace, i, k - 1);
      assert i - k > 0;
      assert Follows(max, trace[i - k - 1], trace[i - k]);
    }
  }

  predicate StartsAfresh(e: Event) {
    e.TokenRefresh? || (e.SessionEnded? && e.uptimeSecs >= 60)
  }

  /** Between two cascade starts lies a stable session or a token refresh. */
  lemma CascadesAreSeparated(max: nat, trace: seq<Event>, i: nat, j: nat)
    requires Grammatical(max, trace) && i < j < |trace|
    requires trace[i].SessionEnded? && trace[i].cascadeStart
    requires trace[j].SessionEnded? && trace[j].cascadeStart
    ensures exists k :: i < k < j && StartsAfresh(trace[k])
  {
    assert WellFormed(max, trace[i]) && WellFormed(max, trace[j]);
    assert Follows(max, trace[j - 1], trace[j]);
    assert i < j - 1 < j;
  }

  /** Once a shutdown is seen before or during the delay of cycle `k`, no refresh follows. */
  lemma {:induction false} ShutdownStopsRefreshing(config: SupervisedConfig, cycles: seq<Cycle>, cycle: nat,
                                                   endpoint: Endpoint, k: nat)
    requires k < |cycles| && cycles[k].SeesShutdown()
    ensures RunCycles(config, cycles, cycle, endpoint).refreshes <= k
    ensures |RunCycles(config, cycles, cycle, endpoint).endpoints| <= k + 1
    decreases cycles
  {
    var c := cycles[0];
    if k > 0 && c.refresh.Refreshed? {
      ShutdownStopsRefreshing(config, cycles[1..], cycle + 1, c.refresh.endpoint, k - 1);
    }
  }

  lemma ShutdownStopsSupervisor(config: SupervisedConfig, bootstrap: RefreshReply, cycles: seq<Cycle>, k: nat)
    requires k < |cycles| && cycles[k].SeesShutdown()
    ensures Supervise(config, bootstrap, cycles).refreshes <= k + 1
  {
    if bootstrap.Refreshed? {
      ShutdownStopsRefreshing(config, cycles, 0, bootstrap.endpoint, k);
    }
  }

  /** Every cycle connects to what the latest refresh returned. */
  lemma {:induction false} CycleUsesLatestEndpoint(config: SupervisedConfig, cycles: seq<Cycle>, cycle: nat,
                                                   endpoint: Endpoint, k: nat)
    requires k < |RunCycles(config, cycles, cycle, endpoint).endpoints|
    ensures k <= |cycles|
    ensures k > 0 ==> cycles[k - 1].refresh.Refreshed?
    ensures RunCycles(config, cycles, cycle, endpoint).endpoints[k] ==
      if k == 0 then endpoint else cycles[k - 1].refresh.endpoint
    decreases cycles
  {
    if k == 0 {
    } else {
      CycleUsesLatestEndpoint(config, cycles[1..], cycle + 1, cycles[0].refresh.endpoint, k - 1);
    }
  }
}
