/** Which cycles the supervisor starts, how often it calls the refresh closure, what it
emits and what decides its end, in terms of the sessions and replies it is given. */
module SupervisorOutcome {
  import opened Backoff
  import opened FeedRunner
  import opened FeedOutcome
  import opened Supervisor
  import RunnerTrace

  /** A block of `block` short sessions is completed before any session stops cleanly. */
  ghost predicate GivesUp(sessions: seq<Session>, block: nat) {
    exists n :: FirstBlockEndsAt(sessions, n, block)
  }

  ghost predicate StopsCleanly(sessions: seq<Session>, block: nat) {
    exists n :: StopsCleanlyAt(sessions, n, block)
  }

  lemma FeedEndIs(config: RunnerConfig, sessions: seq<Session>)
    ensures var end := Feed(config, sessions, 0).end;
      && (end.GaveUp? <==> GivesUp(sessions, config.maxReconnectAttempts + 1))
      && (end.GaveUp? ==> end.attempts == config.maxReconnectAttempts + 1)
      && (end.CleanStop? <==> StopsCleanly(sessions, config.maxReconnectAttempts + 1))
  {
    var run, block := Feed(config, sessions, 0), config.maxReconnectAttempts + 1;
    ExhaustionIsExact(config, sessions, run.consumed);
    CleanStopIsExact(config, sessions, run.consumed);
    forall n | FirstBlockEndsAt(sessions, n, block) ensures run.end.GaveUp? {
      ExhaustionIsExact(config, sessions, n);
    }
    forall n | StopsCleanlyAt(sessions, n, block) ensures run.end.CleanStop? {
      CleanStopIsExact(config, sessions, n);
    }
  }

  /** Cycle `k`, counted from 0, has to refresh the token: its feed gave up, the refresh
  budget is not spent, and no shutdown was seen before or during the delay. */
  ghost predicate AsksForRefresh(config: SupervisedConfig, c: Cycle, k: nat) {
    && GivesUp(c.sessions, config.runner.maxReconnectAttempts + 1)
    && k < config.maxRefreshCycles
    && !c.shutdownBeforeRefresh
    && c.delay != WokenByShutdown
  }

  /** Cycle `k` is reached: every cycle before it asked for a refresh and got one. */
  ghost predicate Reached(config: SupervisedConfig, cycles: seq<Cycle>, base: nat, k: nat) {
    && k < |cycles|
    && forall j :: 0 <= j < k ==> AsksForRefresh(config, cycles[j], base + j) && cycles[j].refresh.Refreshed?
  }

  /** How the supervisor ends when cycle `k`, connected to `url`, is the last one started. */
  ghost predicate EndsAs(config: SupervisedConfig, c: Cycle, k: nat, url: string, end: SupervisedEnd) {
    if StopsCleanly(c.sessions, config.runner.maxReconnectAttempts + 1) then end == Stopped
    else if !GivesUp(c.sessions, config.runner.maxReconnectAttempts + 1) then end == StillRunning
    else if k >= config.maxRefreshCycles then end == WsDisconnected(url, config.runner.maxReconnectAttempts + 1)
    else if c.shutdownBeforeRefresh || c.delay == WokenByShutdown then end == Stopped
    else
      match c.refresh
      case RefreshError(message) => end == RefreshFailed(message)
      case Refreshed(_) => end == StillRunning
  }

  lemma {:induction false} StartedIffReached(config: SupervisedConfig, cycles: seq<Cycle>, base: nat,
                                             endpoint: Endpoint, k: nat)
    ensures k < |RunCycles(config, cycles, base, endpoint).endpoints| <==> Reached(config, cycles, base, k)
    decreases cycles
  {
    if cycles == [] {
    } else {
      var c, tail := cycles[0], cycles[1..];
      FeedEndIs(config.runner, c.sessions);
      if k > 0 {
        var renewed := AsksForRefresh(config, c, base) && c.refresh.Refreshed?;
        ReachedTail(config, cycles, base, k);
        if renewed {
          StartedIffReached(config, tail, base + 1, c.refresh.endpoint, k - 1);
        }
      }
    }
  }

  lemma ReachedTail(config: SupervisedConfig, cycles: seq<Cycle>, base: nat, k: nat)
    requires cycles != [] && k > 0
    ensures Reached(config, cycles, base, k) <==>
      && AsksForRefresh(config, cycles[0], base) && cycles[0].refresh.Refreshed?
      && Reached(config, cycles[1..], base + 1, k - 1)
  {
    var tail := cycles[1..];
    if Reached(config, cycles, base, k) {
      assert AsksForRefresh(config, cycles[0], base + 0);
      forall j | 0 <= j < k - 1 ensures AsksForRefresh(config, tail[j], base + 1 + j) && tail[j].refresh.Refreshed? {
        assert AsksForRefresh(config, cycles[j + 1], base + (j + 1));
      }
    }
    var renewed := AsksForRefresh(config, cycles[0], base) && cycles[0].refresh.Refreshed?;
    if renewed && Reached(config, tail, base + 1, k - 1) {
      forall j | 0 <= j < k ensures AsksForRefresh(config, cycles[j], base + j) && cycles[j].refresh.Refreshed? {
        if j > 0 {
          assert AsksForRefresh(config, tail[j - 1], base + 1 + (j - 1));
        }
      }
    }
  }

  /** What the last cycle started decides: the end, and whether the closure runs once more
  than there were cycles after the first. */
  ghost predicate DecidedBy(config: SupervisedConfig, c: Cycle, k: nat, run: SupervisedRun) {
    && run.endpoints != []
    && EndsAs(config, c, k, run.endpoints[|run.endpoints| - 1].url, run.end)
    && run.refreshes == |run.endpoints| - 1 + (if AsksForRefresh(config, c, k) then 1 else 0)
  }

  /** A cycle after which no other starts. */
  lemma LoneCycle(config: SupervisedConfig, cycles: seq<Cycle>, base: nat, endpoint: Endpoint)
    requires cycles != []
    requires AsksForRefresh(config, cycles[0], base) && cycles[0].refresh.Refreshed? ==> |cycles| == 1
    ensures var run := RunCycles(config, cycles, base, endpoint);
      run.endpoints == [endpoint] && DecidedBy(config, cycles[0], base, run)
  {
    FeedEndIs(config.runner, cycles[0].sessions);
    assert [endpoint] + [] == [endpoint];
  }

  /** A renewed cycle adds one endpoint and one call, and leaves the end to those after it. */
  lemma RenewedCycle(config: SupervisedConfig, cycles: seq<Cycle>, base: nat, endpoint: Endpoint, rest: SupervisedRun)
    requires cycles != [] && AsksForRefresh(config, cycles[0], base) && cycles[0].refresh.Refreshed?
    requires rest == RunCycles(config, cycles[1..], base + 1, cycles[0].refresh.endpoint)
    ensures var run := RunCycles(config, cycles, base, endpoint);
      run.endpoints == [endpoint] + rest.endpoints && run.refreshes == 1 + rest.refreshes && run.end == rest.end
  {
    FeedEndIs(config.runner, cycles[0].sessions);
  }

  lemma {:induction false} LastCycleDecides(config: SupervisedConfig, cycles: seq<Cycle>, base: nat, endpoint: Endpoint)
    requires cycles != []
    ensures var run := RunCycles(config, cycles, base, endpoint);
      && 0 < |run.endpoints| <= |cycles|
      && DecidedBy(config, cycles[|run.endpoints| - 1], base + |run.endpoints| - 1, run)
    decreases cycles
  {
    var c, tail := cycles[0], cycles[1..];
    if tail != [] && AsksForRefresh(config, c, base) && c.refresh.Refreshed? {
      var rest := RunCycles(config, tail, base + 1, c.refresh.endpoint);
      LastCycleDecides(config, tail, base + 1, c.refresh.endpoint);
      RenewedCycle(config, cycles, base, endpoint, rest);
    } else {
      LoneCycle(config, cycles, base, endpoint);
    }
  }

  // What is emitted

  /** The events of one cycle: those of its feed, then what the supervisor reports about it. */
  ghost function CycleEvents(config: SupervisedConfig, c: Cycle, k: nat): seq<Event> {
    Feed(config.runner, c.sessions, 0).events +
    if AsksForRefresh(config, c, k) then [TokenRefresh(k + 1)]
    else if GivesUp(c.sessions, config.runner.maxReconnectAttempts + 1) && k >= config.maxRefreshCycles then
      [RefreshExhausted(k + 1)]
    else []
  }

  ghost function EventsOf(config: SupervisedConfig, cycles: seq<Cycle>, base: nat, n: nat): seq<Event>
    requires n <= |cycles|
    decreases n
  {
    if n == 0 then [] else CycleEvents(config, cycles[0], base) + EventsOf(config, cycles[1..], base + 1, n - 1)
  }

  lemma {:induction false} CyclesEmit(config: SupervisedConfig, cycles: seq<Cycle>, base: nat, endpoint: Endpoint)
    ensures var run := RunCycles(config, cycles, base, endpoint);
      && |run.endpoints| <= |cycles|
      && run.events == EventsOf(config, cycles, base, |run.endpoints|)
    decreases cycles
  {
    if cycles == [] {
    } else {
      var c, tail := cycles[0], cycles[1..];
      var feed, run := Feed(config.runner, c.sessions, 0), RunCycles(config, cycles, base, endpoint);
      FeedEndIs(config.runner, c.sessions);
      if AsksForRefresh(config, c, base) && c.refresh.Refreshed? {
        CyclesEmit(config, tail, base + 1, c.refresh.endpoint);
        assert |run.endpoints| - 1 == |RunCycles(config, tail, base + 1, c.refresh.endpoint).endpoints|;
      } else {
        assert EventsOf(config, tail, base + 1, 0) == [];
        assert run.events == CycleEvents(config, c, base) && run.endpoints == [endpoint];
      }
    }
  }

  // The whole supervisor

  /** With the bootstrap refused the supervisor ends at once, with that error. */
  lemma BootstrapDecides(config: SupervisedConfig, bootstrap: RefreshReply, cycles: seq<Cycle>)
    ensures bootstrap.RefreshError? ==>
      Supervise(config, bootstrap, cycles) == SupervisedRun([], 1, [], RefreshFailed(bootstrap.message))
    ensures bootstrap.Refreshed? ==>
      var run := RunCycles(config, cycles, 0, bootstrap.endpoint);
      Supervise(config, bootstrap, cycles) == SupervisedRun(run.events, 1 + run.refreshes, run.endpoints, run.end)
  {
    if bootstrap.Refreshed? {
      var run := RunCycles(config, cycles, 0, bootstrap.endpoint);
      assert [] + run.events == run.events && [] + run.endpoints == run.endpoints;
    }
  }

  /** Cycle `k` starts if and only if the bootstrap succeeded and every cycle before it gave up
  within the refresh budget, saw no shutdown and got a new endpoint; and it connects to the
  endpoint fetched last. */
  lemma CycleStartsIff(config: SupervisedConfig, bootstrap: RefreshReply, cycles: seq<Cycle>, k: nat)
    ensures var run := Supervise(config, bootstrap, cycles);
      k < |run.endpoints| <==> bootstrap.Refreshed? && Reached(config, cycles, 0, k)
    ensures var run := Supervise(config, bootstrap, cycles);
      k < |run.endpoints| ==>
        && k <= |cycles|
        && (k == 0 ==> run.endpoints[0] == bootstrap.endpoint)
        && (k > 0 ==> cycles[k - 1].refresh.Refreshed? && run.endpoints[k] == cycles[k - 1].refresh.endpoint)
  {
    BootstrapDecides(config, bootstrap, cycles);
    if bootstrap.Refreshed? {
      StartedIffReached(config, cycles, 0, bootstrap.endpoint, k);
      if k < |RunCycles(config, cycles, 0, bootstrap.endpoint).endpoints| {
        RunnerTrace.CycleUsesLatestEndpoint(config, cycles, 0, bootstrap.endpoint, k);
      }
    }
  }

  /** The last cycle started decides the end; the closure has run once for the bootstrap,
  once before each later cycle, and once more if the last one asked for a refresh. */
  lemma LastCycleDecidesEnd(config: SupervisedConfig, first: Endpoint, cycles: seq<Cycle>)
    requires cycles != []
    ensures var run := Supervise(config, Refreshed(first), cycles);
      var last := |run.endpoints| - 1;
      && 0 <= last < |cycles|
      && EndsAs(config, cycles[last], last, run.endpoints[last].url, run.end)
      && run.refreshes == 1 + last + (if AsksForRefresh(config, cycles[last], last) then 1 else 0)
  {
    BootstrapDecides(config, Refreshed(first), cycles);
    LastCycleDecides(config, cycles, 0, first);
  }

  /** The trace is that of the cycles started, one after the other. */
  lemma TraceIsThatOfCycles(config: SupervisedConfig, first: Endpoint, cycles: seq<Cycle>)
    ensures var run := Supervise(config, Refreshed(first), cycles);
      |run.endpoints| <= |cycles| && run.events == EventsOf(config, cycles, 0, |run.endpoints|)
  {
    BootstrapDecides(config, Refreshed(first), cycles);
    CyclesEmit(config, cycles, 0, first);
  }
}
