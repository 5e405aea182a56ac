/** Which bars a paged fetch returns from a venue that has every bar: one at each
multiple of the bar length, with both ends of a window included. */
module KlineCoverage {
  import opened Options
  import opened Collections
  import opened Sorting
  import opened Klines

  /** Bar number `k` of the venue starts at time `k * bar`. */
  type Venue = int -> Candle

  ghost predicate OnGrid(venue: Venue, bar: int) {
    forall k: int :: venue(k).time == k * bar
  }

  /** Bars number `lo` up to, not including, `hi`. */
  function Bars(venue: Venue, lo: int, hi: int): (cs: seq<Candle>)
    requires lo <= hi
    ensures |cs| == hi - lo
    ensures forall i :: 0 <= i < |cs| ==> cs[i] == venue(lo + i)
  {
    seq(hi - lo, i => venue(lo + i))
  }

  function Readable(cs: seq<Candle>): (rows: seq<Row>)
    ensures |rows| == |cs|
    ensures forall i :: 0 <= i < |rows| ==> rows[i] == Some(cs[i])
  {
    seq(|cs|, i requires 0 <= i < |cs| => Some(cs[i]))
  }

  /** The number of the first bar at or after `t`, and of the first one after it. */
  function FirstAt(t: int, bar: int): int
    requires bar > 0
  {
    -((-t) / bar)
  }

  function FirstAfter(t: int, bar: int): int
    requires bar > 0
  {
    t / bar + 1
  }

  /** The reply of a venue that has every bar. */
  ghost predicate Complete(venue: Venue, bar: int, w: Window, reply: seq<Row>)
    requires bar > 0
  {
    FirstAt(w.start, bar) <= FirstAfter(w.end, bar) &&
    reply == Readable(Bars(venue, FirstAt(w.start, bar), FirstAfter(w.end, bar)))
  }

  ghost predicate AllComplete(venue: Venue, bar: int, windows: seq<Window>, replies: seq<seq<Row>>)
    requires bar > 0
  {
    forall k :: 0 <= k < |windows| && k < |replies| ==> Complete(venue, bar, windows[k], replies[k])
  }

  lemma {:induction false} ReadableIsWellFormed(cs: seq<Candle>)
    ensures WellFormed(Readable(cs)) == cs
  {
    if cs == [] {
    } else {
      assert Readable(cs)[1..] == Readable(cs[1..]);
      ReadableIsWellFormed(cs[1..]);
    }
  }

  // Window ends in bars: a time is `e * bar + r` with `0 <= r < bar`

  lemma AtLeastOne(k: int, bar: int)
    requires bar > 0 && k >= 1
    ensures k * bar >= bar
  {
  }

  lemma DivideUnique(bar: int, e: int, r: int)
    requires bar > 0 && 0 <= r < bar
    ensures (e * bar + r) / bar == e
  {
    var t := e * bar + r;
    var q, m := t / bar, t % bar;
    assert t == q * bar + m;
    assert (q - e) * bar == q * bar - e * bar;
    assert (e - q) * bar == e * bar - q * bar;
    if q > e {
      AtLeastOne(q - e, bar);
    } else if q < e {
      AtLeastOne(e - q, bar);
    }
  }

  lemma BoundsInBars(bar: int, e: int, r: int)
    requires bar > 0 && 0 <= r < bar
    ensures FirstAfter(e * bar + r, bar) == e + 1
    ensures FirstAt(e * bar + r, bar) == if r == 0 then e else e + 1
  {
    DivideUnique(bar, e, r);
    if r == 0 {
      assert -(e * bar + r) == (-e) * bar + 0;
      DivideUnique(bar, -e, 0);
    } else {
      assert -(e * bar + r) == (-e - 1) * bar + (bar - r);
      DivideUnique(bar, -e - 1, bar - r);
    }
  }

  /** Time `t` lies in bar `e`, `r` after its start. */
  ghost predicate InBar(bar: int, t: int, e: int, r: int) {
    0 <= r < bar && t == e * bar + r
  }

  /** What one complete page holds: `batch` bars, and one more when now is a bar start. */
  lemma PageInBars(venue: Venue, q: Query, end: int, e: int, r: int, have: nat, reply: seq<Row>)
    requires q.bar > 0 && InBar(q.bar, end, e, r) && have < q.total
    requires Complete(venue, q.bar, Request(q, end, have), reply)
    ensures var batch := Min(q.total - have, q.pageSize);
      && InBar(q.bar, Request(q, end, have).start - q.bar, e - batch - 1, r)
      && reply == Readable(Bars(venue, if r == 0 then e - batch else e - batch + 1, e + 1))
  {
    var batch := Min(q.total - have, q.pageSize);
    assert end - q.bar * batch == (e - batch) * q.bar + r;
    BoundsInBars(q.bar, e, r);
    BoundsInBars(q.bar, e - batch, r);
  }

  lemma CompleteTail(venue: Venue, bar: int, w: Window, ws: seq<Window>, replies: seq<seq<Row>>)
    requires bar > 0 && replies != [] && AllComplete(venue, bar, [w] + ws, replies)
    ensures Complete(venue, bar, w, replies[0]) && AllComplete(venue, bar, ws, replies[1..])
  {
    var all := [w] + ws;
    assert all[0] == w;
    forall k | 0 <= k < |ws| && k < |replies[1..]| ensures Complete(venue, bar, ws[k], replies[1..][k]) {
      assert all[k + 1] == ws[k] && replies[k + 1] == replies[1..][k];
    }
  }

  // Sorted listings

  lemma BarsRise(venue: Venue, bar: int, lo: int, hi: int)
    requires bar > 0 && OnGrid(venue, bar) && lo <= hi
    ensures TimesRise(Bars(venue, lo, hi))
  {
    var cs := Bars(venue, lo, hi);
    forall i, j | 0 <= i < j < |cs| ensures cs[i].time < cs[j].time {
      LaterBar(venue, bar, lo + i, lo + j);
    }
  }

  lemma LaterBar(venue: Venue, bar: int, k: int, l: int)
    requires bar > 0 && OnGrid(venue, bar) && k < l
    ensures venue(k).time < venue(l).time
  {
    AtLeastOne(l - k, bar);
    assert (l - k) * bar == l * bar - k * bar;
  }

  /** Sorting candles that make up a rising listing gives that listing. */
  lemma SortGivesListing(listing: seq<Candle>, cs: seq<Candle>)
    requires TimesRise(listing) && multiset(cs) == multiset(listing)
    ensures SortByTime(cs) == listing
  {
    SortSorts(TimeLeq, cs);
    SortKeeps(TimeLeq, cs);
    SortedIsUnique(TimeLeq, listing, SortByTime(cs));
  }

  // The fetch in bar numbers

  /** The first bar of a page of `batch` bars that ends with bar `e`; a window from bar
  start to bar start holds one more. */
  function PageFrom(e: int, batch: nat, aligned: bool): int {
    if aligned then e - batch else e - batch + 1
  }

  /** The candles fetched when the window ends in bar `e`. */
  function FetchBars(venue: Venue, q: Query, e: int, have: seq<Candle>, aligned: bool): seq<Candle>
    decreases q.total - |have|
  {
    if |have| >= q.total then have
    else
      var batch := Min(q.total - |have|, q.pageSize);
      var page := Bars(venue, PageFrom(e, batch, aligned), e + 1);
      if page == [] then have else FetchBars(venue, q, e - batch - 1, have + page, aligned)
  }

  ghost predicate CompleteRun(venue: Venue, q: Query, end: int, have: seq<Candle>, replies: seq<seq<Row>>)
    requires q.bar > 0
  {
    var run := Fetch(q, end, have, replies);
    run.finished && AllComplete(venue, q.bar, run.windows, replies)
  }

  /** The first page of a complete run, and the complete run that is left. */
  lemma FirstPage(venue: Venue, q: Query, end: int, have: seq<Candle>, replies: seq<seq<Row>>, rest: Fetched)
    requires q.bar > 0 && |have| < q.total && CompleteRun(venue, q, end, have, replies)
    requires replies != [] ==> rest == FetchRest(q, end, have, replies)
    ensures replies != []
    ensures Complete(venue, q.bar, Request(q, end, |have|), replies[0])
    ensures rest.finished && AllComplete(venue, q.bar, rest.windows, replies[1..])
    ensures Fetch(q, end, have, replies).candles == rest.candles
  {
    CompleteTail(venue, q.bar, Request(q, end, |have|), rest.windows, replies);
  }

  /** A complete page, read and sorted, is the bars it covers. */
  lemma PageIsBars(venue: Venue, bar: int, lo: int, hi: int, reply: seq<Row>)
    requires bar > 0 && OnGrid(venue, bar) && lo <= hi && reply == Readable(Bars(venue, lo, hi))
    ensures SortByTime(WellFormed(reply)) == Bars(venue, lo, hi)
    ensures reply == [] <==> Bars(venue, lo, hi) == []
  {
    var page := Bars(venue, lo, hi);
    ReadableIsWellFormed(page);
    BarsRise(venue, bar, lo, hi);
    SortGivesListing(page, page);
  }

  lemma CompletePage(venue: Venue, q: Query, end: int, e: int, r: int, have: nat, reply: seq<Row>)
    requires q.bar > 0 && OnGrid(venue, q.bar) && InBar(q.bar, end, e, r) && have < q.total
    requires Complete(venue, q.bar, Request(q, end, have), reply)
    ensures var batch := Min(q.total - have, q.pageSize);
      var page := Bars(venue, PageFrom(e, batch, r == 0), e + 1);
      && InBar(q.bar, Request(q, end, have).start - q.bar, e - batch - 1, r)
      && SortByTime(WellFormed(reply)) == page
      && (reply == [] <==> page == [])
  {
    var batch := Min(q.total - have, q.pageSize);
    PageInBars(venue, q, end, e, r, have, reply);
    PageIsBars(venue, q.bar, PageFrom(e, batch, r == 0), e + 1, reply);
  }

  /** The first page of a complete run is the first step of the walk in bar numbers. */
  lemma StepInBars(venue: Venue, q: Query, end: int, e: int, r: int, have: seq<Candle>, replies: seq<seq<Row>>,
                   page: seq<Candle>, next: int)
    requires q.bar > 0 && OnGrid(venue, q.bar) && InBar(q.bar, end, e, r)
    requires |have| < q.total && CompleteRun(venue, q, end, have, replies)
    requires page == Bars(venue, PageFrom(e, Min(q.total - |have|, q.pageSize), r == 0), e + 1)
    requires next == Request(q, end, |have|).start - q.bar
    ensures replies != [] && InBar(q.bar, next, e - Min(q.total - |have|, q.pageSize) - 1, r)
    ensures page == [] ==> Fetch(q, end, have, replies).candles == have
    ensures page != [] ==> CompleteRun(venue, q, next, have + page, replies[1..])
    ensures page != [] ==> Fetch(q, end, have, replies).candles == Fetch(q, next, have + page, replies[1..]).candles
  {
    assert replies != [];
    var rest := FetchRest(q, end, have, replies);
    FirstPage(venue, q, end, have, replies, rest);
    CompletePage(venue, q, end, e, r, |have|, replies[0]);
    if page == [] {
      assert rest == Fetched([], have + page, true) && have + page == have;
    } else {
      assert rest == Fetch(q, next, have + page, replies[1..]);
    }
  }

  /** A fetch from a complete venue is the same walk in bar numbers. */
  lemma {:induction false} FetchIsFetchBars(venue: Venue, q: Query, end: int, e: int, r: int, have: seq<Candle>,
                                            replies: seq<seq<Row>>)
    requires q.bar > 0 && OnGrid(venue, q.bar) && InBar(q.bar, end, e, r)
    requires CompleteRun(venue, q, end, have, replies)
    ensures Fetch(q, end, have, replies).candles == FetchBars(venue, q, e, have, r == 0)
    decreases replies
  {
    if |have| >= q.total {
    } else {
      var batch := Min(q.total - |have|, q.pageSize);
      var page := Bars(venue, PageFrom(e, batch, r == 0), e + 1);
      var next := Request(q, end, |have|).start - q.bar;
      StepInBars(venue, q, end, e, r, have, replies, page, next);
      if page != [] {
        FetchIsFetchBars(venue, q, next, e - batch - 1, r, have + page, replies[1..]);
      }
    }
  }

  ghost predicate HoldsBars(venue: Venue, cs: seq<Candle>, lo: int, hi: int) {
    lo <= hi && multiset(cs) == multiset(Bars(venue, lo, hi))
  }

  lemma SortedBars(venue: Venue, bar: int, cs: seq<Candle>, lo: int, hi: int)
    requires bar > 0 && OnGrid(venue, bar) && HoldsBars(venue, cs, lo, hi)
    ensures SortByTime(cs) == Bars(venue, lo, hi)
  {
    BarsRise(venue, bar, lo, hi);
    SortGivesListing(Bars(venue, lo, hi), cs);
  }

  // Now is the start of a bar

  /** How many bars are fetched in all, when every page holds one more than its batch. */
  function AlignedCount(total: nat, have: nat, pageSize: nat): (n: nat)
    ensures n >= have
    decreases total - have
  {
    if have >= total then have
    else AlignedCount(total, have + Min(total - have, pageSize) + 1, pageSize)
  }

  lemma RemainderOfLess(n: nat, page: nat)
    requires n < page
    ensures n % page == n
  {
    DivideUnique(page, 0, n);
  }

  lemma RemainderLessPage(n: nat, page: nat)
    requires 0 < page <= n
    ensures (n - page) % page == n % page
  {
    var k, m := n / page, n % page;
    assert n == k * page + m && (k - 1) * page == k * page - page;
    DivideUnique(page, k - 1, m);
  }

  lemma {:induction false} AlignedCountIsTotalIff(total: nat, have: nat, pageSize: nat)
    requires have <= total
    ensures AlignedCount(total, have, pageSize) >= total
    ensures AlignedCount(total, have, pageSize) == total <==> (total - have) % (pageSize + 1) == 0
    decreases total - have
  {
    var left, page := total - have, pageSize + 1;
    if left >= page {
      AlignedCountIsTotalIff(total, have + page, pageSize);
      RemainderLessPage(left, page);
    } else {
      RemainderOfLess(left, page);
    }
  }

  lemma PagesJoin(venue: Venue, have: seq<Candle>, lo: int, mid: int, hi: int)
    requires lo <= mid && HoldsBars(venue, have, mid, hi)
    ensures HoldsBars(venue, have + Bars(venue, lo, mid), lo, hi)
  {
    assert Bars(venue, lo, hi) == Bars(venue, lo, mid) + Bars(venue, mid, hi);
  }

  lemma AlignedStep(venue: Venue, q: Query, e: int, have: seq<Candle>, next: int)
    requires |have| < q.total && next == e - Min(q.total - |have|, q.pageSize) - 1
    ensures var more := have + Bars(venue, next + 1, e + 1);
      && |more| == |have| + e - next
      && FetchBars(venue, q, e, have, true) == FetchBars(venue, q, next, more, true)
      && AlignedCount(q.total, |have|, q.pageSize) == AlignedCount(q.total, |more|, q.pageSize)
  {
  }

  /** A walk that has reached bar `e` holds every bar after it, and counts on from there. */
  ghost predicate AlignedAt(venue: Venue, q: Query, e: int, have: seq<Candle>, lo: int, hi: int) {
    && |have| == hi - e - 1
    && HoldsBars(venue, have, e + 1, hi)
    && lo == hi - AlignedCount(q.total, |have|, q.pageSize)
  }

  lemma AlignedAtNext(venue: Venue, q: Query, e: int, have: seq<Candle>, lo: int, hi: int, next: int)
    requires AlignedAt(venue, q, e, have, lo, hi) && |have| < q.total
    requires next == e - Min(q.total - |have|, q.pageSize) - 1
    ensures AlignedAt(venue, q, next, have + Bars(venue, next + 1, e + 1), lo, hi)
  {
    PagesJoin(venue, have, next + 1, e + 1, hi);
    AlignedStep(venue, q, e, have, next);
  }

  lemma {:induction false} AlignedFetch(venue: Venue, q: Query, e: int, have: seq<Candle>, lo: int, hi: int)
    requires AlignedAt(venue, q, e, have, lo, hi)
    ensures HoldsBars(venue, FetchBars(venue, q, e, have, true), lo, hi)
    decreases q.total - |have|
  {
    if |have| >= q.total {
    } else {
      var next := e - Min(q.total - |have|, q.pageSize) - 1;
      AlignedAtNext(venue, q, e, have, lo, hi, next);
      AlignedStep(venue, q, e, have, next);
      AlignedFetch(venue, q, next, have + Bars(venue, next + 1, e + 1), lo, hi);
    }
  }

  /** Keeping the oldest `total` of `n` bars gives the newest ones only if nothing is cut. */
  lemma TruncationDropsNewest(venue: Venue, bar: int, hi: int, n: nat, total: nat)
    requires bar > 0 && OnGrid(venue, bar) && n >= total
    ensures Truncate(Bars(venue, hi - n, hi), total) == Bars(venue, hi - total, hi) <==> n == total || total == 0
  {
    var cut, want := Truncate(Bars(venue, hi - n, hi), total), Bars(venue, hi - total, hi);
    if n > total > 0 {
      LaterBar(venue, bar, hi - n, hi - total);
      assert cut[0] == venue(hi - n) && want[0] == venue(hi - total);
    }
  }

  /** What `FetchBars` leads to when the walk starts in bar `hi - 1`. */
  function Answer(venue: Venue, q: Query, hi: int, aligned: bool): seq<Candle> {
    Truncate(SortByTime(FetchBars(venue, q, hi - 1, [], aligned)), q.total)
  }

  lemma AlignedSorted(venue: Venue, q: Query, hi: int, n: nat)
    requires q.bar > 0 && OnGrid(venue, q.bar) && n == AlignedCount(q.total, 0, q.pageSize)
    ensures SortByTime(FetchBars(venue, q, hi - 1, [], true)) == Bars(venue, hi - n, hi)
  {
    assert Bars(venue, hi, hi) == [];
    AlignedFetch(venue, q, hi - 1, [], hi - n, hi);
    SortedBars(venue, q.bar, FetchBars(venue, q, hi - 1, [], true), hi - n, hi);
  }

  lemma AlignedAnswer(venue: Venue, q: Query, hi: int)
    requires q.bar > 0 && OnGrid(venue, q.bar)
    ensures Answer(venue, q, hi, true) == Bars(venue, hi - q.total, hi) <==> q.total % (q.pageSize + 1) == 0
  {
    var n := AlignedCount(q.total, 0, q.pageSize);
    AlignedSorted(venue, q, hi, n);
    AlignedCountIsTotalIff(q.total, 0, q.pageSize);
    TruncationDropsNewest(venue, q.bar, hi, n, q.total);
    RemainderOfLess(0, q.pageSize + 1);
  }

  // Now is inside a bar

  /** Everything fetched later is a bar no newer than the one the window ended in. */
  lemma {:induction false} LaterPagesAreOlder(venue: Venue, q: Query, e: int, have: seq<Candle>, aligned: bool,
                                              k: int)
    requires q.bar > 0 && OnGrid(venue, q.bar) && k > e && venue(k) !in have
    ensures venue(k) !in FetchBars(venue, q, e, have, aligned)
    decreases q.total - |have|
  {
    if |have| >= q.total {
    } else {
      var batch := Min(q.total - |have|, q.pageSize);
      var page := Bars(venue, PageFrom(e, batch, aligned), e + 1);
      BarNotAmong(venue, q.bar, PageFrom(e, batch, aligned), e + 1, k);
      if page != [] {
        LaterPagesAreOlder(venue, q, e - batch - 1, have + page, aligned, k);
      }
    }
  }

  lemma BarNotAmong(venue: Venue, bar: int, lo: int, hi: int, k: int)
    requires bar > 0 && OnGrid(venue, bar) && lo <= hi && (k < lo || k >= hi)
    ensures venue(k) !in Bars(venue, lo, hi)
  {
    var bars := Bars(venue, lo, hi);
    forall i | 0 <= i < |bars| ensures bars[i] != venue(k) {
      if k < lo {
        LaterBar(venue, bar, k, lo + i);
      } else {
        LaterBar(venue, bar, lo + i, k);
      }
    }
  }

  lemma WalkLosesBar(venue: Venue, q: Query, e: int)
    requires q.bar > 0 && OnGrid(venue, q.bar) && q.total > q.pageSize
    ensures venue(e - q.pageSize) !in FetchBars(venue, q, e, [], false)
  {
    var p := q.pageSize;
    var page := Bars(venue, e - p + 1, e + 1);
    BarNotAmong(venue, q.bar, e - p + 1, e + 1, e - p);
    if page != [] {
      assert [] + page == page;
      LaterPagesAreOlder(venue, q, e - p - 1, page, false, e - p);
    }
  }

  lemma UnalignedOnePage(venue: Venue, q: Query, e: int)
    requires q.bar > 0 && OnGrid(venue, q.bar) && 0 < q.total <= q.pageSize
    ensures FetchBars(venue, q, e, [], false) == Bars(venue, e + 1 - q.total, e + 1)
  {
    var page := Bars(venue, e + 1 - q.total, e + 1);
    assert [] + page == page && page != [];
  }

  lemma UnalignedManyPages(venue: Venue, q: Query, hi: int)
    requires q.bar > 0 && OnGrid(venue, q.bar) && q.total > q.pageSize
    ensures Answer(venue, q, hi, false) != Bars(venue, hi - q.total, hi)
  {
    var lost, want := venue(hi - 1 - q.pageSize), Bars(venue, hi - q.total, hi);
    WalkLosesBar(venue, q, hi - 1);
    SortAddsNothing(TimeLeq, FetchBars(venue, q, hi - 1, [], false), lost);
    assert want[q.total - 1 - q.pageSize] == lost;
  }

  lemma UnalignedAnswer(venue: Venue, q: Query, hi: int)
    requires q.bar > 0 && OnGrid(venue, q.bar)
    ensures Answer(venue, q, hi, false) == Bars(venue, hi - q.total, hi) <==> q.total <= q.pageSize
  {
    if 0 < q.total <= q.pageSize {
      UnalignedOnePage(venue, q, hi - 1);
      SortedBars(venue, q.bar, FetchBars(venue, q, hi - 1, [], false), hi - q.total, hi);
    } else if q.total > q.pageSize {
      UnalignedManyPages(venue, q, hi);
    }
  }

  /** The newest `total` bars that have started by `nowMs`, oldest first. */
  function NewestBars(venue: Venue, q: Query, nowMs: int): seq<Candle>
    requires q.bar > 0
  {
    Bars(venue, FirstAfter(nowMs, q.bar) - q.total, FirstAfter(nowMs, q.bar))
  }

  lemma ResultIsAnswer(venue: Venue, q: Query, end: int, e: int, r: int, replies: seq<seq<Row>>)
    requires q.bar > 0 && OnGrid(venue, q.bar) && InBar(q.bar, end, e, r)
    requires CompleteRun(venue, q, end, [], replies)
    ensures Result(q, Fetch(q, end, [], replies)) == Some(Answer(venue, q, e + 1, r == 0))
  {
    FetchIsFetchBars(venue, q, end, e, r, [], replies);
  }

  lemma AnswerIsNewestIff(venue: Venue, q: Query, hi: int, aligned: bool)
    requires q.bar > 0 && OnGrid(venue, q.bar)
    ensures Answer(venue, q, hi, aligned) == Bars(venue, hi - q.total, hi) <==>
      if aligned then q.total % (q.pageSize + 1) == 0 else q.total <= q.pageSize
  {
    if aligned {
      AlignedAnswer(venue, q, hi);
    } else {
      UnalignedAnswer(venue, q, hi);
    }
  }

  lemma NewestBarsIffAt(venue: Venue, q: Query, end: int, e: int, r: int, replies: seq<seq<Row>>)
    requires q.bar > 0 && OnGrid(venue, q.bar) && InBar(q.bar, end, e, r)
    requires CompleteRun(venue, q, end, [], replies)
    ensures Result(q, Fetch(q, end, [], replies)) == Some(Bars(venue, e + 1 - q.total, e + 1)) <==>
      if r == 0 then q.total % (q.pageSize + 1) == 0 else q.total <= q.pageSize
  {
    ResultIsAnswer(venue, q, end, e, r, replies);
    AnswerIsNewestIff(venue, q, e + 1, r == 0);
  }

  lemma DivisionInBar(bar: int, t: int)
    requires bar > 0
    ensures InBar(bar, t, t / bar, t % bar)
  {
  }

  /** From a venue that has every bar, the paged fetch returns exactly the newest `total`
  bars if and only if: now is a bar start and `total` is a multiple of
  `pageSize + 1`, or now is inside a bar and one page suffices. */
  lemma NewestBarsIff(venue: Venue, q: Query, nowMs: int, replies: seq<seq<Row>>)
    requires q.bar > 0 && OnGrid(venue, q.bar) && CompleteRun(venue, q, nowMs, [], replies)
    ensures Result(q, Fetch(q, nowMs, [], replies)) == Some(NewestBars(venue, q, nowMs)) <==>
      if nowMs % q.bar == 0 then q.total % (q.pageSize + 1) == 0 else q.total <= q.pageSize
  {
    DivisionInBar(q.bar, nowMs);
    NewestBarsIffAt(venue, q, nowMs, nowMs / q.bar, nowMs % q.bar, replies);
  }

  /** When now is inside a bar and one page does not suffice, a bar that starts between
  the first window and the next is never fetched. */
  lemma UnalignedLosesBar(venue: Venue, q: Query, nowMs: int, replies: seq<seq<Row>>)
    requires q.bar > 0 && OnGrid(venue, q.bar) && CompleteRun(venue, q, nowMs, [], replies)
    requires nowMs % q.bar != 0 && q.total > q.pageSize
    ensures var lost, first := venue(nowMs / q.bar - q.pageSize), Request(q, nowMs, 0);
      && first.start - q.bar < lost.time < first.start
      && lost !in Fetch(q, nowMs, [], replies).candles
  {
    var e, r := nowMs / q.bar, nowMs % q.bar;
    DivisionInBar(q.bar, nowMs);
    BetweenWindows(q, nowMs, e, r);
    FetchIsFetchBars(venue, q, nowMs, e, r, [], replies);
    WalkLosesBar(venue, q, e);
  }

  lemma BetweenWindows(q: Query, nowMs: int, e: int, r: int)
    requires q.bar > 0 && InBar(q.bar, nowMs, e, r) && r > 0 && q.total > q.pageSize
    ensures Request(q, nowMs, 0).start - q.bar < (e - q.pageSize) * q.bar < Request(q, nowMs, 0).start
  {
    assert nowMs - q.bar * q.pageSize == (e - q.pageSize) * q.bar + r;
  }

  // Complete runs exist

  lemma CompleteReplyExists(venue: Venue, q: Query, end: int, have: nat) returns (reply: seq<Row>)
    requires q.bar > 0 && have < q.total
    ensures Complete(venue, q.bar, Request(q, end, have), reply)
  {
    var e, r, batch := end / q.bar, end % q.bar, Min(q.total - have, q.pageSize);
    assert end - q.bar * batch == (e - batch) * q.bar + r;
    BoundsInBars(q.bar, e, r);
    BoundsInBars(q.bar, e - batch, r);
    var w := Request(q, end, have);
    reply := Readable(Bars(venue, FirstAt(w.start, q.bar), FirstAfter(w.end, q.bar)));
  }

  lemma {:induction false} PageLength(reply: seq<Row>)
    requires forall i :: 0 <= i < |reply| ==> reply[i].Some?
    ensures |SortByTime(WellFormed(reply))| == |reply|
  {
    SortKeeps(TimeLeq, WellFormed(reply));
    if reply == [] {
    } else {
      PageLength(reply[1..]);
      SortKeeps(TimeLeq, WellFormed(reply[1..]));
    }
  }

  lemma CompleteCons(venue: Venue, bar: int, w: Window, ws: seq<Window>, reply: seq<Row>, replies: seq<seq<Row>>)
    requires bar > 0 && Complete(venue, bar, w, reply) && AllComplete(venue, bar, ws, replies)
    ensures AllComplete(venue, bar, [w] + ws, [reply] + replies)
  {
  }

  /** Whatever the query and the time, a venue that has every bar answers it to the end. */
  lemma {:induction false} CompleteRunExists(venue: Venue, q: Query, end: int, have: seq<Candle>)
    returns (replies: seq<seq<Row>>)
    requires q.bar > 0
    ensures CompleteRun(venue, q, end, have, replies)
    decreases q.total - |have|
  {
    replies := [];
    if |have| >= q.total {
    } else {
      var reply := CompleteReplyExists(venue, q, end, |have|);
      var window, more := Request(q, end, |have|), have + SortByTime(WellFormed(reply));
      var rest: seq<seq<Row>>, left := [], Fetched([], more, true);
      PageLength(reply);
      if reply != [] {
        rest := CompleteRunExists(venue, q, window.start - q.bar, more);
        left := Fetch(q, window.start - q.bar, more, rest);
      }
      replies := [reply] + rest;
      assert replies[1..] == rest;
      assert FetchRest(q, end, have, replies) == left;
      CompleteCons(venue, q.bar, window, left.windows, reply, rest);
    }
  }

  // Two fetches that miss the newest bars

  /** A bar every ten milliseconds. */
  function TenMs(): (venue: Venue)
    ensures OnGrid(venue, 10)
  {
    (k: int) => Candle(k * 10, 0.0)
  }

  /** Now is a bar start: asked for one bar, the venue sends two, and the newest is cut. */
  lemma AlignedFetchMisses() returns (q: Query, replies: seq<seq<Row>>)
    ensures q == Query(1, 10, 1) && CompleteRun(TenMs(), q, 0, [], replies)
    ensures Result(q, Fetch(q, 0, [], replies)) == Some([Candle(-10, 0.0)])
    ensures NewestBars(TenMs(), q, 0) == [Candle(0, 0.0)]
  {
    q := Query(1, 10, 1);
    replies := CompleteRunExists(TenMs(), q, 0, []);
    ResultIsAnswer(TenMs(), q, 0, 0, 0, replies);
    assert AlignedCount(1, 0, 1) == 2;
    AlignedSorted(TenMs(), q, 1, 2);
    assert Bars(TenMs(), -1, 1)[..1] == [Candle(-10, 0.0)];
  }

  /** Now is inside a bar: of the two newest bars, the older falls between the windows. */
  lemma UnalignedFetchMisses() returns (q: Query, replies: seq<seq<Row>>)
    ensures q == Query(2, 10, 1) && CompleteRun(TenMs(), q, 5, [], replies)
    ensures Result(q, Fetch(q, 5, [], replies)) == Some([Candle(-20, 0.0), Candle(0, 0.0)])
    ensures NewestBars(TenMs(), q, 5) == [Candle(-10, 0.0), Candle(0, 0.0)]
  {
    q := Query(2, 10, 1);
    replies := CompleteRunExists(TenMs(), q, 5, []);
    ResultIsAnswer(TenMs(), q, 5, 0, 5, replies);
    TwoPagesAnswer(q);
    NewestTwo(q);
  }

  lemma NewestTwo(q: Query)
    requires q.total == 2 && q.bar == 10
    ensures NewestBars(TenMs(), q, 5) == [Candle(-10, 0.0), Candle(0, 0.0)]
  {
    assert NewestBars(TenMs(), q, 5) == Bars(TenMs(), -1, 1);
  }

  lemma TwoPages(q: Query)
    requires q.total == 2 && q.pageSize == 1
    ensures FetchBars(TenMs(), q, 0, [], false) == [Candle(0, 0.0), Candle(-20, 0.0)]
  {
    var newer, both := [Candle(0, 0.0)], [Candle(0, 0.0), Candle(-20, 0.0)];
    assert Bars(TenMs(), 0, 1) == newer && [] + newer == newer;
    assert Bars(TenMs(), -2, -1) == [Candle(-20, 0.0)] && newer + [Candle(-20, 0.0)] == both;
    assert FetchBars(TenMs(), q, -2, newer, false) == FetchBars(TenMs(), q, -4, both, false) == both;
  }

  lemma TwoPagesAnswer(q: Query)
    requires q.total == 2 && q.pageSize == 1
    ensures Answer(TenMs(), q, 1, false) == [Candle(-20, 0.0), Candle(0, 0.0)]
  {
    var older, newer := Candle(-20, 0.0), Candle(0, 0.0);
    TwoPages(q);
    assert multiset([newer, older]) == multiset([older, newer]);
    SortGivesListing([older, newer], [newer, older]);
  }
}
