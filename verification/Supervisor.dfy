/** The supervisor that refreshes the token whenever a feed cycle gives up. */
module Supervisor {
  import opened Backoff
  import opened FeedRunner

  datatype SupervisedConfig = SupervisedConfig(runner: RunnerConfig, maxRefreshCycles: nat)

  datatype Endpoint = Endpoint(url: string, subscriptions: seq<string>)

  datatype RefreshReply = Refreshed(endpoint: Endpoint) | RefreshError(message: string)

  /** How the delay before a refresh ended: slept out, cut short by an update that
  does not ask for shutdown, or ended by a shutdown. */
  datatype DelayOutcome = SleptOut | WokenWithoutShutdown | WokenByShutdown

  /** What the environment supplies to one cycle. */
  datatype Cycle = Cycle(
    sessions: seq<Session>,
    shutdownBeforeRefresh: bool,
    delay: DelayOutcome,
    refresh: RefreshReply)
  {
    predicate SeesShutdown() {
      shutdownBeforeRefresh || delay.WokenByShutdown?
    }
  }

  datatype SupervisedEnd =
    | Stopped
    | RefreshFailed(message: string)
    | WsDisconnected(url: string, attempts: nat)
    | StillRunning

  /** `refreshes` counts calls of the refresh closure, the first one included;
  `endpoints` lists the endpoint of every cycle started. */
  datatype SupervisedRun = SupervisedRun(
    events: seq<Event>, refreshes: nat, endpoints: seq<Endpoint>, end: SupervisedEnd)

  /** The cycles from number `cycle` on, the first of them at `endpoint`. */
  function RunCycles(config: SupervisedConfig, cycles: seq<Cycle>, cycle: nat, endpoint: Endpoint): SupervisedRun
    decreases cycles
  {
    if cycles == [] then SupervisedRun([], 0, [], StillRunning)
    else
      var feed, c := Feed(config.runner, cycles[0].sessions, 0), cycles[0];
      var refreshing := feed.events + [TokenRefresh(cycle + 1)];
      match feed.end
      case CleanStop => SupervisedRun(feed.events, 0, [endpoint], Stopped)
      case Running => SupervisedRun(feed.events, 0, [endpoint], StillRunning)
      case GaveUp(attempts) =>
        if cycle + 1 > config.maxRefreshCycles then
          SupervisedRun(feed.events + [RefreshExhausted(cycle + 1)], 0, [endpoint],
                        WsDisconnected(endpoint.url, attempts))
        else if c.SeesShutdown() then SupervisedRun(feed.events, 0, [endpoint], Stopped)
        else if c.refresh.RefreshError? then
          SupervisedRun(refreshing, 1, [endpoint], RefreshFailed(c.refresh.message))
        else
          Preceded(refreshing, 1, [endpoint], RunCycles(config, cycles[1..], cycle + 1, c.refresh.endpoint))
  }

  function Preceded(events: seq<Event>, refreshes: nat, endpoints: seq<Endpoint>, run: SupervisedRun): SupervisedRun {
    SupervisedRun(events + run.events, refreshes + run.refreshes, endpoints + run.endpoints, run.end)
  }

  function Supervise(config: SupervisedConfig, bootstrap: RefreshReply, cycles: seq<Cycle>): SupervisedRun {
    if bootstrap.RefreshError? then SupervisedRun([], 1, [], RefreshFailed(bootstrap.message))
    else Preceded([], 1, [], RunCycles(config, cycles, 0, bootstrap.endpoint))
  }

  method RunFeedSupervised(config: SupervisedConfig, bootstrap: RefreshReply, cycles: seq<Cycle>)
    returns (run: SupervisedRun)
    ensures run == Supervise(config, bootstrap, cycles)
  {
    var refreshes := 1;
    if bootstrap.RefreshError? {
      return SupervisedRun([], refreshes, [], RefreshFailed(bootstrap.message));
    }
    var current, cycle := bootstrap.endpoint, 0;
    var events: seq<Event>, endpoints: seq<Endpoint> := [], [];
    while cycle < |cycles|
      invariant 0 <= cycle <= |cycles|
      invariant Supervise(config, bootstrap, cycles) ==
        Preceded(events, refreshes, endpoints, RunCycles(config, cycles[cycle..], cycle, current))
    {
      var c := cycles[cycle];
      ghost var rest := cycles[cycle..];
      assert rest[0] == c && rest[1..] == cycles[cycle + 1..];
      var feed := RunFeed(config.runner, c.sessions);
      ghost var before, started := events, endpoints;
      events, endpoints := events + feed.events, endpoints + [current];
      match feed.end {
        case CleanStop =>
          return SupervisedRun(events, refreshes, endpoints, Stopped);
        case Running =>
          return SupervisedRun(events, refreshes, endpoints, StillRunning);
        case GaveUp(attempts) =>
          cycle := cycle + 1;
          if cycle > config.maxRefreshCycles {
            PrecededTwice(before, refreshes, started, feed.events, 0, [current],
                          SupervisedRun([RefreshExhausted(cycle)], 0, [], WsDisconnected(current.url, attempts)));
            return SupervisedRun(events + [RefreshExhausted(cycle)], refreshes, endpoints,
                                 WsDisconnected(current.url, attempts));
          }
          if c.shutdownBeforeRefresh || c.delay.WokenByShutdown? {
            return SupervisedRun(events, refreshes, endpoints, Stopped);
          }
          events := events + [TokenRefresh(cycle)];
          refreshes := refreshes + 1;
          assert before + (feed.events + [TokenRefresh(cycle)]) == events;
          if c.refresh.RefreshError? {
            return SupervisedRun(events, refreshes, endpoints, RefreshFailed(c.refresh.message));
          }
          current := c.refresh.endpoint;
          PrecededTwice(before, refreshes - 1, started, feed.events + [TokenRefresh(cycle)], 1,
                        [endpoints[|endpoints| - 1]], RunCycles(config, cycles[cycle..], cycle, current));
      }
    }
    run := SupervisedRun(events, refreshes, endpoints, StillRunning);
  }

  lemma PrecededTwice(e1: seq<Event>, r1: nat, p1: seq<Endpoint>, e2: seq<Event>, r2: nat, p2: seq<Endpoint>,
                      run: SupervisedRun)
    ensures Preceded(e1, r1, p1, Preceded(e2, r2, p2, run)) == Preceded(e1 + e2, r1 + r2, p1 + p2, run)
  {
    assert e1 + (e2 + run.events) == e1 + e2 + run.events;
    assert p1 + (p2 + run.endpoints) == p1 + p2 + run.endpoints;
  }
}
