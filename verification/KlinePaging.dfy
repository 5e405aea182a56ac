/** What the paged fetch asks for and returns, for every stream of replies, in terms of the
rows that can be read. */
module KlinePaging {
  import opened Options
  import opened Sorting
  import opened Klines

  /** An unreadable row is skipped, and nothing else is: the readable ones stay in order. */
  lemma {:induction false} RowsAreRead(a: seq<Row>, b: seq<Row>, c: Candle)
    ensures WellFormed(a + b) == WellFormed(a) + WellFormed(b)
    ensures WellFormed([None]) == [] && WellFormed([Some(c)]) == [c]
  {
    if a == [] {
      assert a + b == b;
      assert WellFormed([Some(c)][1..]) == [];
    } else {
      assert (a + b)[1..] == a[1..] + b;
      RowsAreRead(a[1..], b, c);
      var head := if a[0].Some? then [a[0].value] else [];
      assert (head + WellFormed(a[1..])) + WellFormed(b) == head + (WellFormed(a[1..]) + WellFormed(b));
    }
  }

  /** A candle is read exactly if some row of the reply is it. */
  lemma {:induction false} ReadIffRow(reply: seq<Row>, c: Candle)
    ensures c in WellFormed(reply) <==> Some(c) in reply
  {
    if reply == [] {
    } else {
      ReadIffRow(reply[1..], c);
      assert reply == [reply[0]] + reply[1..];
    }
  }

  /** The readable candles of the first `k` replies, in the order received. */
  function Received(replies: seq<seq<Row>>, k: nat): seq<Candle>
    requires k <= |replies|
    decreases k
  {
    if k == 0 then [] else WellFormed(replies[0]) + Received(replies[1..], k - 1)
  }

  /** Page `k` is asked for when every earlier reply had rows, readable or not, and fewer
  candles than wanted have been read. */
  ghost predicate Asked(q: Query, have: nat, replies: seq<seq<Row>>, k: nat) {
    && k < |replies|
    && (forall j :: 0 <= j < k ==> replies[j] != [])
    && have + |Received(replies, k)| < q.total
  }

  /** Page `k` ends where the one before it started, less one bar, and spans as many bars as
  are missing, but at most a page. */
  ghost predicate RightWindow(q: Query, now: int, have: nat, windows: seq<Window>, k: nat, read: nat) {
    && k < |windows|
    && windows[k].end == (if k == 0 then now else windows[k - 1].start - q.bar)
    && have + read < q.total
    && var missing := q.total - have - read;
       windows[k].start == windows[k].end - q.bar * (if missing < q.pageSize then missing else q.pageSize)
  }

  lemma ReceivedTail(replies: seq<seq<Row>>, k: nat)
    requires 0 < k <= |replies|
    ensures |Received(replies, k)| == |WellFormed(replies[0])| + |Received(replies[1..], k - 1)|
  {
  }

  lemma AskedTail(q: Query, have: nat, replies: seq<seq<Row>>, k: nat)
    requires replies != [] && have < q.total && k > 0
    ensures Asked(q, have, replies, k) <==>
      replies[0] != [] && Asked(q, have + |WellFormed(replies[0])|, replies[1..], k - 1)
  {
    assert forall j | 0 <= j < |replies| - 1 :: replies[1..][j] == replies[j + 1];
    if replies[0] != [] && Asked(q, have + |WellFormed(replies[0])|, replies[1..], k - 1) {
      forall j | 0 <= j < k ensures replies[j] != [] {
        assert j > 0 ==> replies[1..][j - 1] != [];
      }
    }
  }

  lemma PageSize(have: seq<Candle>, reply: seq<Row>)
    ensures |have + SortByTime(WellFormed(reply))| == |have| + |WellFormed(reply)|
  {
    SortKeeps(TimeLeq, WellFormed(reply));
  }

  lemma {:induction false} AsksFrom(q: Query, end: int, have: seq<Candle>, replies: seq<seq<Row>>, k: nat)
    ensures var windows := Fetch(q, end, have, replies).windows;
      k < |windows| <==> |have| < q.total && Asked(q, |have|, replies, k)
    ensures var windows := Fetch(q, end, have, replies).windows;
      k < |windows| ==> k < |replies| && RightWindow(q, end, |have|, windows, k, |Received(replies, k)|)
    decreases replies
  {
    if |have| >= q.total || replies == [] {
    } else {
      var rest := FetchRest(q, end, have, replies);
      var next, more := Request(q, end, |have|).start - q.bar, have + SortByTime(WellFormed(replies[0]));
      PageSize(have, replies[0]);
      if k > 0 {
        AskedTail(q, |have|, replies, k);
        if replies[0] != [] {
          AsksFrom(q, next, more, replies[1..], k - 1);
          assert Fetch(q, end, have, replies).windows == [Request(q, end, |have|)] + rest.windows;
          if k <= |rest.windows| {
            ReceivedTail(replies, k);
          }
        }
      }
    }
  }

  /** Which windows are asked for, for every stream of replies. */
  lemma WindowsAskedFor(q: Query, nowMs: int, replies: seq<seq<Row>>, k: nat)
    ensures var windows := Fetch(q, nowMs, [], replies).windows;
      && (k < |windows| <==> Asked(q, 0, replies, k))
      && (k < |windows| ==> RightWindow(q, nowMs, 0, windows, k, |Received(replies, k)|))
  {
    AsksFrom(q, nowMs, [], replies, k);
  }

  // What is fetched

  /** `cs` and `ds` hold the same candles, those of equal time in the same order. */
  ghost predicate SameByTime(cs: seq<Candle>, ds: seq<Candle>) {
    multiset(cs) == multiset(ds) && forall c :: Ties(TimeLeq, c, cs) == Ties(TimeLeq, c, ds)
  }

  lemma SortIsSameByTime(cs: seq<Candle>)
    ensures SameByTime(SortByTime(cs), cs)
  {
    SortKeeps(TimeLeq, cs);
    forall c ensures Ties(TimeLeq, c, SortByTime(cs)) == Ties(TimeLeq, c, cs) {
      SortIsStable(TimeLeq, c, cs);
    }
  }

  lemma SameByTimeConcat(a: seq<Candle>, b: seq<Candle>, c: seq<Candle>, d: seq<Candle>)
    requires SameByTime(a, c) && SameByTime(b, d)
    ensures SameByTime(a + b, c + d)
  {
    forall x ensures Ties(TimeLeq, x, a + b) == Ties(TimeLeq, x, c + d) {
      TiesConcat(TimeLeq, x, a, b);
      TiesConcat(TimeLeq, x, c, d);
    }
  }

  lemma SameByTimeTrans(a: seq<Candle>, b: seq<Candle>, c: seq<Candle>)
    requires SameByTime(a, b) && SameByTime(b, c)
    ensures SameByTime(a, c)
  {
  }

  lemma JoinPages(have: seq<Candle>, page: seq<Candle>, read: seq<Candle>, left: seq<Candle>, candles: seq<Candle>)
    requires SameByTime(page, read) && SameByTime(candles, (have + page) + left)
    ensures SameByTime(candles, have + (read + left))
  {
    SameByTimeConcat(have, page, have, read);
    SameByTimeConcat(have + page, left, have + read, left);
    SameByTimeTrans(candles, (have + page) + left, (have + read) + left);
    assert (have + read) + left == have + (read + left);
  }

  /** The fetch holds what it had and what the replies it used brought. */
  ghost predicate Holds(q: Query, have: seq<Candle>, replies: seq<seq<Row>>, n: nat,
                        candles: seq<Candle>, finished: bool) {
    && n <= |replies|
    && SameByTime(candles, have + Received(replies, n))
    && (finished <==>
          |have| + |Received(replies, n)| >= q.total || (n > 0 && replies[n - 1] == []))
  }

  lemma HoldsAfterPage(q: Query, have: seq<Candle>, replies: seq<seq<Row>>, page: seq<Candle>, n: nat,
                       candles: seq<Candle>, finished: bool)
    requires replies != [] && replies[0] != [] && page == SortByTime(WellFormed(replies[0]))
    requires Holds(q, have + page, replies[1..], n, candles, finished)
    ensures Holds(q, have, replies, n + 1, candles, finished)
  {
    PageSize(have, replies[0]);
    SortIsSameByTime(WellFormed(replies[0]));
    JoinPages(have, page, WellFormed(replies[0]), Received(replies[1..], n), candles);
    ReceivedTail(replies, n + 1);
    assert n > 0 ==> replies[1..][n - 1] == replies[n];
  }

  lemma HoldsNoPage(q: Query, have: seq<Candle>, replies: seq<seq<Row>>)
    ensures Holds(q, have, replies, 0, have, |have| >= q.total)
  {
    assert have + [] == have;
  }

  lemma HoldsLastPage(q: Query, have: seq<Candle>, replies: seq<seq<Row>>)
    requires replies != [] && replies[0] == []
    ensures Holds(q, have, replies, 1, have, true)
  {
    assert Received(replies, 1) == WellFormed(replies[0]) + Received(replies[1..], 0);
    assert have + Received(replies, 1) == have;
  }

  /** A fetch that goes on after its first page. */
  lemma FetchGoesOn(q: Query, end: int, have: seq<Candle>, replies: seq<seq<Row>>, page: seq<Candle>, rest: Fetched)
    requires |have| < q.total && replies != [] && replies[0] != [] && page == SortByTime(WellFormed(replies[0]))
    requires rest == Fetch(q, Request(q, end, |have|).start - q.bar, have + page, replies[1..])
    ensures var run := Fetch(q, end, have, replies);
      |run.windows| == |rest.windows| + 1 && run.candles == rest.candles && run.finished == rest.finished
  {
  }

  /** A fetch that its first reply ends. */
  lemma FetchStops(q: Query, end: int, have: seq<Candle>, replies: seq<seq<Row>>)
    requires |have| < q.total && replies != [] && replies[0] == []
    ensures var run := Fetch(q, end, have, replies); |run.windows| == 1 && run.candles == have && run.finished
  {
    assert have + SortByTime(WellFormed(replies[0])) == have;
  }

  ghost predicate FetchHolds(q: Query, end: int, have: seq<Candle>, replies: seq<seq<Row>>) {
    var run := Fetch(q, end, have, replies);
    Holds(q, have, replies, |run.windows|, run.candles, run.finished)
  }

  lemma HoldsAtEnd(q: Query, end: int, have: seq<Candle>, replies: seq<seq<Row>>)
    requires |have| >= q.total || replies == [] || replies[0] == []
    ensures FetchHolds(q, end, have, replies)
  {
    if |have| >= q.total || replies == [] {
      HoldsNoPage(q, have, replies);
    } else {
      FetchStops(q, end, have, replies);
      HoldsLastPage(q, have, replies);
    }
  }

  lemma HoldsFurther(q: Query, end: int, have: seq<Candle>, replies: seq<seq<Row>>, page: seq<Candle>, next: int)
    requires |have| < q.total && replies != [] && replies[0] != []
    requires page == SortByTime(WellFormed(replies[0])) && next == Request(q, end, |have|).start - q.bar
    requires FetchHolds(q, next, have + page, replies[1..])
    ensures FetchHolds(q, end, have, replies)
  {
    var rest := Fetch(q, next, have + page, replies[1..]);
    FetchGoesOn(q, end, have, replies, page, rest);
    HoldsAfterPage(q, have, replies, page, |rest.windows|, rest.candles, rest.finished);
  }

  lemma {:induction false} HoldsFrom(q: Query, end: int, have: seq<Candle>, replies: seq<seq<Row>>)
    ensures FetchHolds(q, end, have, replies)
    decreases replies
  {
    if |have| >= q.total || replies == [] || replies[0] == [] {
      HoldsAtEnd(q, end, have, replies);
    } else {
      var page := SortByTime(WellFormed(replies[0]));
      var next := Request(q, end, |have|).start - q.bar;
      HoldsFrom(q, next, have + page, replies[1..]);
      HoldsFurther(q, end, have, replies, page, next);
    }
  }

  /** `kept` and then `cut` are the candles `read`, oldest first and equal times in the order
  read; at most `total` are kept. */
  ghost predicate OldestKept(read: seq<Candle>, total: nat, kept: seq<Candle>, cut: seq<Candle>) {
    && Sorted(TimeLeq, kept + cut)
    && SameByTime(kept + cut, read)
    && |kept| == if |read| < total then |read| else total
  }

  lemma TruncatedIsOldest(candles: seq<Candle>, read: seq<Candle>, total: nat) returns (cut: seq<Candle>)
    requires SameByTime(candles, read)
    ensures OldestKept(read, total, Truncate(SortByTime(candles), total), cut)
  {
    var sorted := SortByTime(candles);
    SortSorts(TimeLeq, candles);
    SortIsSameByTime(candles);
    SameByTimeTrans(sorted, candles, read);
    assert |multiset(sorted)| == |sorted| && |multiset(read)| == |read|;
    cut := if |sorted| > total then sorted[total..] else [];
    assert Truncate(sorted, total) + cut == sorted;
  }

  /** The fetch ends when enough candles have been read or a reply has no rows at all, and
  returns the oldest `total` of what was read, oldest first, equal times in the order
  received. */
  lemma ResultIsOldestReceived(q: Query, nowMs: int, replies: seq<seq<Row>>, n: nat) returns (cut: seq<Candle>)
    requires n == |Fetch(q, nowMs, [], replies).windows|
    ensures n <= |replies|
    ensures var result := Result(q, Fetch(q, nowMs, [], replies));
      && (result.Some? <==> |Received(replies, n)| >= q.total || (n > 0 && replies[n - 1] == []))
      && (result.Some? ==> OldestKept(Received(replies, n), q.total, result.value, cut))
  {
    HoldsFrom(q, nowMs, [], replies);
    assert [] + Received(replies, n) == Received(replies, n);
    cut := TruncatedIsOldest(Fetch(q, nowMs, [], replies).candles, Received(replies, n), q.total);
  }
}
