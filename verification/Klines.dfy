/** Paged candle fetching: windows that walk back in time from now. Times are
milliseconds and `bar` is the length of one bar. */
module Klines {
  import opened Options
  import opened Collections
  import opened Sorting

  datatype Candle = Candle(time: int, close: real)

  /** A row of a reply; `None` is a row that does not parse as a candle. */
  type Row = Option<Candle>

  datatype Query = Query(total: nat, bar: int, pageSize: nat)

  datatype Window = Window(start: int, end: int)

  /** `finished` is false when the replies ran out before the loop did. */
  datatype Fetched = Fetched(windows: seq<Window>, candles: seq<Candle>, finished: bool)

  function WellFormed(reply: seq<Row>): seq<Candle> {
    if reply == [] then []
    else (if reply[0].Some? then [reply[0].value] else []) + WellFormed(reply[1..])
  }

  // Sorting by time

  predicate TimeLeq(a: Candle, b: Candle) {
    a.time <= b.time
  }

  /** Equal times keep their order. */
  function SortByTime(cs: seq<Candle>): seq<Candle> {
    Sort(TimeLeq, cs)
  }

  ghost predicate TimesRise(cs: seq<Candle>) {
    forall i, j :: 0 <= i < j < |cs| ==> cs[i].time < cs[j].time
  }

  ghost predicate TimesDistinct(cs: seq<Candle>) {
    forall i, j :: 0 <= i < j < |cs| ==> cs[i].time != cs[j].time
  }

  // The paging loop

  function Request(q: Query, end: int, have: nat): Window
    requires have < q.total
  {
    Window(end - q.bar * Min(q.total - have, q.pageSize), end)
  }

  /** The windows already asked for, in front of those of the rest of a run. */
  function After(windows: seq<Window>, rest: Fetched): Fetched {
    rest.(windows := windows + rest.windows)
  }

  function Fetch(q: Query, end: int, have: seq<Candle>, replies: seq<seq<Row>>): Fetched
    decreases replies, 1
  {
    if |have| >= q.total || replies == [] then Fetched([], have, |have| >= q.total)
    else After([Request(q, end, |have|)], FetchRest(q, end, have, replies))
  }

  /** What is left of a fetch once its first page is in. */
  function FetchRest(q: Query, end: int, have: seq<Candle>, replies: seq<seq<Row>>): Fetched
    requires |have| < q.total && replies != []
    decreases replies, 0
  {
    var next, more := Request(q, end, |have|).start - q.bar, have + SortByTime(WellFormed(replies[0]));
    if replies[0] == [] then Fetched([], more, true) else Fetch(q, next, more, replies[1..])
  }

  function Truncate(cs: seq<Candle>, total: nat): seq<Candle> {
    if |cs| > total then cs[..total] else cs
  }

  function Result(q: Query, fetched: Fetched): Option<seq<Candle>> {
    if fetched.finished then Some(Truncate(SortByTime(fetched.candles), q.total)) else None
  }

  /** What the loop has done and what it has still to do make up one run. */
  ghost predicate Continues(run: Fetched, windows: seq<Window>, q: Query, end: int, have: seq<Candle>,
                            left: seq<seq<Row>>) {
    run == After(windows, Fetch(q, end, have, left))
  }

  /** One page moves from the rest of the run to what is done. */
  lemma FetchOne(run: Fetched, windows: seq<Window>, q: Query, end: int, have: seq<Candle>, left: seq<seq<Row>>,
                 window: Window, page: seq<Candle>)
    requires Continues(run, windows, q, end, have, left) && |have| < q.total && left != []
    requires window == Request(q, end, |have|) && page == SortByTime(WellFormed(left[0]))
    ensures left[0] == [] ==> run == Fetched(windows + [window], have + page, true)
    ensures left[0] != [] ==> Continues(run, windows + [window], q, window.start - q.bar, have + page, left[1..])
  {
    var rest := FetchRest(q, end, have, left);
    assert run == After(windows, After([window], rest));
    assert windows + ([window] + rest.windows) == windows + [window] + rest.windows;
    assert run == After(windows + [window], rest);
  }

  method FetchKlinesExtended(q: Query, nowMs: int, replies: seq<seq<Row>>)
    returns (windows: seq<Window>, result: Option<seq<Candle>>)
    ensures windows == Fetch(q, nowMs, [], replies).windows
    ensures result == Result(q, Fetch(q, nowMs, [], replies))
  {
    var all: seq<Candle>, windowEndMs, i := [], nowMs, 0;
    windows := [];
    ghost var run := Fetch(q, nowMs, [], replies);
    while |all| < q.total && i < |replies|
      invariant 0 <= i <= |replies|
      invariant Continues(run, windows, q, windowEndMs, all, replies[i..])
    {
      var reply := replies[i];
      var remaining := q.total - |all|;
      var batch := Min(remaining, q.pageSize);
      var windowStartMs := windowEndMs - q.bar * batch;
      var page := SortByTime(WellFormed(reply));
      FetchOne(run, windows, q, windowEndMs, all, replies[i..], Window(windowStartMs, windowEndMs), page);
      windows := windows + [Window(windowStartMs, windowEndMs)];
      all := all + page;
      if |reply| == 0 {
        return windows, Some(Truncate(SortByTime(all), q.total));
      }
      windowEndMs := windowStartMs - q.bar;
      assert replies[i..][1..] == replies[i + 1..];
      i := i + 1;
    }
    result := if |all| < q.total then None else Some(Truncate(SortByTime(all), q.total));
  }

  lemma RequestRunsForward(q: Query, end: int, have: nat)
    requires q.bar > 0 && have < q.total
    ensures Request(q, end, have).start <= Request(q, end, have).end == end
  {
    assert q.bar * Min(q.total - have, q.pageSize) >= 0;
  }

  ghost predicate WalksBack(end: int, ws: seq<Window>) {
    && (forall i :: 0 <= i < |ws| ==> ws[i].start <= ws[i].end <= end)
    && (forall i, j :: 0 <= i < j < |ws| ==> ws[j].end < ws[i].start)
  }

  lemma WalkOneMore(window: Window, end: int, ws: seq<Window>)
    requires window.start <= window.end && end < window.start && WalksBack(end, ws)
    ensures WalksBack(window.end, [window] + ws)
  {
  }

  /** Whatever the replies, windows never overlap: each ends before the previous one starts. */
  lemma {:induction false} WindowsAreDisjoint(q: Query, end: int, have: seq<Candle>, replies: seq<seq<Row>>)
    requires q.bar > 0
    ensures WalksBack(end, Fetch(q, end, have, replies).windows)
    decreases replies
  {
    if |have| >= q.total || replies == [] {
    } else {
      var window, page := Request(q, end, |have|), SortByTime(WellFormed(replies[0]));
      RequestRunsForward(q, end, |have|);
      if replies[0] != [] {
        WindowsAreDisjoint(q, window.start - q.bar, have + page, replies[1..]);
        WalkOneMore(window, window.start - q.bar,
                    Fetch(q, window.start - q.bar, have + page, replies[1..]).windows);
      }
    }
  }

  /** A venue whose non-empty replies always hold a readable candle is asked at most
  once for every candle still wanted. */
  lemma {:induction false} FetchTerminates(q: Query, end: int, have: seq<Candle>, replies: seq<seq<Row>>)
    requires forall k :: 0 <= k < |replies| && replies[k] != [] ==> WellFormed(replies[k]) != []
    ensures |have| <= q.total ==> |Fetch(q, end, have, replies).windows| <= q.total - |have|
    ensures |have| + |replies| >= q.total ==> Fetch(q, end, have, replies).finished
    decreases replies
  {
    if |have| >= q.total || replies == [] || replies[0] == [] {
    } else {
      var window, page := Request(q, end, |have|), SortByTime(WellFormed(replies[0]));
      SortKeeps(TimeLeq, WellFormed(replies[0]));
      FetchTerminates(q, window.start - q.bar, have + page, replies[1..]);
    }
  }

  /** The readable candles of a reply have distinct times inside the window asked for. */
  ghost predicate Honest(w: Window, reply: seq<Row>) {
    && TimesDistinct(WellFormed(reply))
    && forall c :: c in WellFormed(reply) ==> w.start <= c.time <= w.end
  }

  ghost predicate AllHonest(windows: seq<Window>, replies: seq<seq<Row>>) {
    forall k :: 0 <= k < |windows| && k < |replies| ==> Honest(windows[k], replies[k])
  }

  lemma SortedDistinctRise(cs: seq<Candle>)
    requires TimesDistinct(cs)
    ensures TimesRise(SortByTime(cs))
  {
    SortSorts(TimeLeq, cs);
    SortKeepsDistinct(cs);
    var sorted := SortByTime(cs);
    assert forall i, j | 0 <= i < j < |sorted| :: TimeLeq(sorted[i], sorted[j]);
  }

  lemma {:induction false} SortKeepsDistinct(cs: seq<Candle>)
    requires TimesDistinct(cs)
    ensures TimesDistinct(SortByTime(cs))
  {
    if cs == [] {
    } else {
      var tail := SortByTime(cs[1..]);
      SortKeepsDistinct(cs[1..]);
      forall i | 0 <= i < |tail| ensures tail[i].time != cs[0].time {
        SortAddsNothing(TimeLeq, cs[1..], tail[i]);
        var k :| 0 <= k < |cs[1..]| && cs[1..][k] == tail[i];
        assert cs[k + 1] == tail[i];
      }
      InsertKeepsDistinct(cs[0], tail);
    }
  }

  lemma {:induction false} InsertKeepsDistinct(c: Candle, cs: seq<Candle>)
    requires TimesDistinct(cs) && forall i :: 0 <= i < |cs| ==> cs[i].time != c.time
    ensures TimesDistinct(Insert(TimeLeq, c, cs))
  {
    if cs == [] || TimeLeq(c, cs[0]) {
    } else {
      var tail := Insert(TimeLeq, c, cs[1..]);
      InsertKeepsDistinct(c, cs[1..]);
      forall j | 0 <= j < |tail| ensures cs[0].time != tail[j].time {
        Inserted(TimeLeq, c, cs[1..], tail[j]);
      }
    }
  }

  lemma AppendOlderPage(have: seq<Candle>, reply: seq<Row>, w: Window)
    requires TimesDistinct(have) && Honest(w, reply) && w.start <= w.end
    requires forall c :: c in have ==> c.time > w.end
    ensures TimesDistinct(have + SortByTime(WellFormed(reply)))
    ensures forall c :: c in have + SortByTime(WellFormed(reply)) ==> c.time >= w.start
  {
    var page := SortByTime(WellFormed(reply));
    SortKeepsDistinct(WellFormed(reply));
    forall c | c in page ensures w.start <= c.time <= w.end {
      SortAddsNothing(TimeLeq, WellFormed(reply), c);
    }
  }

  lemma HonestTail(w: Window, ws: seq<Window>, replies: seq<seq<Row>>)
    requires replies != [] && AllHonest([w] + ws, replies)
    ensures Honest(w, replies[0]) && AllHonest(ws, replies[1..])
  {
    var all := [w] + ws;
    assert all[0] == w;
    forall k | 0 <= k < |ws| && k < |replies[1..]| ensures Honest(ws[k], replies[1..][k]) {
      assert all[k + 1] == ws[k] && replies[k + 1] == replies[1..][k];
    }
  }

  /** All candles held are distinct in time and newer than where the next window ends. */
  ghost predicate Newer(have: seq<Candle>, end: int) {
    TimesDistinct(have) && forall c :: c in have ==> c.time > end
  }

  lemma PageKeepsNewer(q: Query, end: int, have: seq<Candle>, reply: seq<Row>)
    requires q.bar > 0 && |have| < q.total && Newer(have, end) && Honest(Request(q, end, |have|), reply)
    ensures Newer(have + SortByTime(WellFormed(reply)), Request(q, end, |have|).start - q.bar)
  {
    RequestRunsForward(q, end, |have|);
    AppendOlderPage(have, reply, Request(q, end, |have|));
  }

  /** The first page of an honest run, and the honest run that is left. */
  lemma HonestNext(q: Query, end: int, have: seq<Candle>, replies: seq<seq<Row>>, rest: Fetched)
    requires |have| < q.total && replies != [] && AllHonest(Fetch(q, end, have, replies).windows, replies)
    requires q.bar > 0 && Newer(have, end) && rest == FetchRest(q, end, have, replies)
    ensures AllHonest(rest.windows, replies[1..])
    ensures Newer(have + SortByTime(WellFormed(replies[0])), Request(q, end, |have|).start - q.bar)
    ensures Fetch(q, end, have, replies).candles == rest.candles
  {
    HonestTail(Request(q, end, |have|), rest.windows, replies);
    PageKeepsNewer(q, end, have, replies[0]);
  }

  lemma {:induction false} FetchedTimesDistinct(q: Query, end: int, have: seq<Candle>, replies: seq<seq<Row>>)
    requires q.bar > 0 && Newer(have, end)
    requires AllHonest(Fetch(q, end, have, replies).windows, replies)
    ensures TimesDistinct(Fetch(q, end, have, replies).candles)
    decreases replies
  {
    if |have| >= q.total || replies == [] {
    } else {
      var next, more := Request(q, end, |have|).start - q.bar, have + SortByTime(WellFormed(replies[0]));
      HonestNext(q, end, have, replies, FetchRest(q, end, have, replies));
      if replies[0] != [] {
        FetchedTimesDistinct(q, next, more, replies[1..]);
      }
    }
  }

  /** From an honest venue the result has strictly rising times and at most `total` candles. */
  lemma ResultRises(q: Query, nowMs: int, replies: seq<seq<Row>>)
    requires q.bar > 0
    requires AllHonest(Fetch(q, nowMs, [], replies).windows, replies)
    ensures var result := Result(q, Fetch(q, nowMs, [], replies));
      result.Some? ==> TimesRise(result.value) && |result.value| <= q.total
  {
    FetchedTimesDistinct(q, nowMs, [], replies);
    SortedDistinctRise(Fetch(q, nowMs, [], replies).candles);
  }
}
