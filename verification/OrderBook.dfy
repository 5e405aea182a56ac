/** The locally maintained order book: snapshot and delta assembly with
sequence-gap detection. */
module OrderBook {
  import opened Options
  import opened LevelWrites

  datatype BookMessage = BookMessage(
    symbol: string,
    exchange: string,
    asks: seq<Level>,
    bids: seq<Level>,
    exchangeTs: int,
    receiptTs: int,
    isSnapshot: bool,
    firstUpdateId: Option<nat>,
    lastUpdateId: Option<nat>)

  datatype BookApply =
    | Snapshot
    | Delta
    | AwaitingSnapshot
    | Stale
    | Gap(expected: nat, got: nat)

  datatype BookState = BookState(
    bids: Side,
    asks: Side,
    lastUpdateId: Option<nat>,
    synced: bool,
    symbol: string,
    exchange: string,
    exchangeTs: int)
  {
    /** The symbol and exchange are taken from the first message applied, the time from every one. */
    function NoteSource(msg: BookMessage): BookState {
      if symbol == "" then this.(symbol := msg.symbol, exchange := msg.exchange, exchangeTs := msg.exchangeTs)
      else this.(exchangeTs := msg.exchangeTs)
    }

    function Written(msg: BookMessage): BookState {
      this.(bids := ApplyLevels(bids, msg.bids), asks := ApplyLevels(asks, msg.asks))
    }
  }

  const EMPTY_BOOK := BookState(map[], map[], None, false, "", "", 0)

  /** The outcome of one message, and the book after it. */
  function Outcome(book: BookState, msg: BookMessage): BookApply {
    if msg.isSnapshot then Snapshot
    else if !book.synced then AwaitingSnapshot
    else if book.lastUpdateId.None? || msg.lastUpdateId.None? then Delta
    else
      var prev, last := book.lastUpdateId.value, msg.lastUpdateId.value;
      var first := msg.firstUpdateId.UnwrapOr(last);
      if last <= prev then Stale
      else if first > prev + 1 then Gap(prev + 1, first)
      else Delta
  }

  function Applied(book: BookState, msg: BookMessage): BookState {
    match Outcome(book, msg)
    case Snapshot =>
      book.(bids := map[], asks := map[]).Written(msg)
      .(lastUpdateId := msg.lastUpdateId, synced := true).NoteSource(msg)
    case Delta =>
      book.Written(msg).(lastUpdateId := msg.lastUpdateId.Or(book.lastUpdateId)).NoteSource(msg)
    case Gap(_, _) => book.(synced := false)
    case _ => book
  }

  /** A whole run: the messages in delivery order. */
  function Run(book: BookState, msgs: seq<BookMessage>): BookState
    decreases msgs
  {
    if msgs == [] then book else Run(Applied(book, msgs[0]), msgs[1..])
  }

  function Outcomes(book: BookState, msgs: seq<BookMessage>): (r: seq<BookApply>)
    ensures |r| == |msgs|
    decreases msgs
  {
    if msgs == [] then []
    else [Outcome(book, msgs[0])] + Outcomes(Applied(book, msgs[0]), msgs[1..])
  }

  function SnapshotOf(book: BookState, receiptTs: int): BookMessage {
    BookMessage(book.symbol, book.exchange, Ascending(book.asks), Descending(book.bids), book.exchangeTs,
                receiptTs, true, book.lastUpdateId, book.lastUpdateId)
  }

  class LocalOrderBook {
    var bids: Side
    var asks: Side
    var lastUpdateId: Option<nat>
    var synced: bool
    var symbol: string
    var exchange: string
    var exchangeTs: int

    ghost function State(): BookState
      reads this
    {
      BookState(bids, asks, lastUpdateId, synced, symbol, exchange, exchangeTs)
    }

    constructor ()
      ensures State() == EMPTY_BOOK
    {
      bids, asks := map[], map[];
      lastUpdateId, synced := None, false;
      symbol, exchange, exchangeTs := "", "", 0;
    }

    method Apply(msg: BookMessage) returns (outcome: BookApply)
      modifies this
      ensures outcome == Outcome(old(State()), msg)
      ensures State() == Applied(old(State()), msg)
      ensures Answers(old(State()), msg, outcome) && Leaves(old(State()), msg, outcome, State())
    {
      ApplyMeaning(State(), msg);
      if msg.isSnapshot {
        bids, asks := map[], map[];
        bids := WriteLevels(bids, msg.bids);
        asks := WriteLevels(asks, msg.asks);
        lastUpdateId := msg.lastUpdateId;
        synced := true;
        NoteSource(msg);
        return Snapshot;
      }
      if !synced {
        return AwaitingSnapshot;
      }
      if lastUpdateId.Some? && msg.lastUpdateId.Some? {
        var prev, last := lastUpdateId.value, msg.lastUpdateId.value;
        if last <= prev {
          return Stale;
        }
        var first := msg.firstUpdateId.UnwrapOr(last);
        if first > prev + 1 {
          synced := false;
          return Gap(prev + 1, first);
        }
      }
      bids := WriteLevels(bids, msg.bids);
      asks := WriteLevels(asks, msg.asks);
      if msg.lastUpdateId.Some? {
        lastUpdateId := msg.lastUpdateId;
      }
      NoteSource(msg);
      return Delta;
    }

    method NoteSource(msg: BookMessage)
      modifies `symbol, `exchange, `exchangeTs
      ensures State() == old(State()).NoteSource(msg)
    {
      if symbol == "" {
        symbol := msg.symbol;
        exchange := msg.exchange;
      }
      exchangeTs := msg.exchangeTs;
    }

    method BestBid() returns (best: Option<Level>)
      ensures best.None? <==> bids == map[]
      ensures best.Some? ==> IsEntry(best.value, bids) && forall p | p in bids :: p <= best.value.price
    {
      var rising := Ascending(bids);
      AscendingLists(bids);
      if rising == [] {
        return None;
      }
      var top := rising[|rising| - 1];
      forall p | p in bids ensures p <= top.price {
        AscendingComplete(bids, p);
        var i :| 0 <= i < |rising| && rising[i].price == p;
      }
      return Some(top);
    }

    method BestAsk() returns (best: Option<Level>)
      ensures best.None? <==> asks == map[]
      ensures best.Some? ==> IsEntry(best.value, asks) && forall p | p in asks :: best.value.price <= p
    {
      if asks == map[] {
        return None;
      }
      var low := LowestPrice(asks);
      return Some(Level(low, asks[low]));
    }

    /** Crossed exactly when some bid price is at or above some ask price. */
    method IsCrossed() returns (crossed: bool)
      ensures crossed <==> exists bid, ask :: bid in bids && ask in asks && bid >= ask
    {
      var bid := BestBid();
      var ask := BestAsk();
      crossed := bid.Some? && ask.Some? && bid.value.price >= ask.value.price;
    }

    /** The best `depth` bids, highest first. */
    method Bids(depth: nat) returns (levels: seq<Level>)
      ensures |levels| == if depth < |bids| then depth else |bids|
      ensures forall i :: 0 <= i < |levels| ==> IsEntry(levels[i], bids)
      ensures PricesFall(levels)
      ensures forall i, p :: 0 <= i < |levels| && p in bids && !HasPrice(levels, p) ==> p < levels[i].price
    {
      var falling := Descending(bids);
      levels := Take(falling, depth);
      DescendingLists(bids);
      forall i, p | 0 <= i < |levels| && p in bids && !HasPrice(levels, p) ensures p < levels[i].price {
        DescendingComplete(bids, p);
        LeftOutComesAfter(falling, depth, i, p);
      }
    }

    /** The best `depth` asks, lowest first. */
    method Asks(depth: nat) returns (levels: seq<Level>)
      ensures |levels| == if depth < |asks| then depth else |asks|
      ensures forall i :: 0 <= i < |levels| ==> IsEntry(levels[i], asks)
      ensures PricesRise(levels)
      ensures forall i, p :: 0 <= i < |levels| && p in asks && !HasPrice(levels, p) ==> levels[i].price < p
    {
      var rising := Ascending(asks);
      levels := Take(rising, depth);
      AscendingLists(asks);
      forall i, p | 0 <= i < |levels| && p in asks && !HasPrice(levels, p) ensures levels[i].price < p {
        AscendingComplete(asks, p);
        LeftOutComesAfter(rising, depth, i, p);
      }
    }

    /** Both sides in full, best first, under the book's own update id: a fresh book fed
    the message becomes this one. */
    method ExportSnapshot(receiptTs: int) returns (msg: BookMessage)
      ensures msg == SnapshotOf(State(), receiptTs)
      ensures Lists(msg.bids, bids) && PricesFall(msg.bids) && forall p :: p in bids ==> HasPrice(msg.bids, p)
      ensures Lists(msg.asks, asks) && PricesRise(msg.asks) && forall p :: p in asks ==> HasPrice(msg.asks, p)
      ensures msg.isSnapshot && msg.firstUpdateId == msg.lastUpdateId == lastUpdateId
      ensures msg.symbol == symbol && msg.exchange == exchange
      ensures msg.exchangeTs == exchangeTs && msg.receiptTs == receiptTs
      ensures NoZeroQuantities(State()) ==> Applied(EMPTY_BOOK, msg) == State().(synced := true)
    {
      msg := BookMessage(symbol, exchange, Ascending(asks), Descending(bids), exchangeTs,
                         receiptTs, true, lastUpdateId, lastUpdateId);
      SnapshotLists(State(), receiptTs);
      if NoZeroQuantities(State()) {
        SnapshotRoundTrip(State(), receiptTs);
      }
    }
  }

  ghost predicate IsEntry(level: Level, side: Side) {
    level.price in side && side[level.price] == level.qty
  }

  /** Write or remove each level in turn. */
  method WriteLevels(side: Side, levels: seq<Level>) returns (written: Side)
    ensures written == ApplyLevels(side, levels)
    ensures Overwritten(side, levels, written)
  {
    WritesOverwrite(side, levels);
    written := side;
    for i := 0 to |levels|
      invariant written == ApplyLevels(side, levels[..i])
    {
      assert levels[..i + 1][..i] == levels[..i];
      if levels[i].qty == 0.0 {
        written := written - {levels[i].price};
      } else {
        written := written[levels[i].price := levels[i].qty];
      }
    }
    assert levels[..|levels|] == levels;
  }

  // What one message means, case by case

  /** The answer, by the update ids alone: a snapshot always applies; a delta before one
  waits; a delta applies unchecked when it or the book lacks an id; otherwise it is stale up
  to the book's id, a gap when it starts past the next one, and applies in between. */
  ghost predicate Answers(book: BookState, msg: BookMessage, outcome: BookApply) {
    && (outcome.Snapshot? <==> msg.isSnapshot)
    && (outcome.AwaitingSnapshot? <==> !msg.isSnapshot && !book.synced)
    && (!msg.isSnapshot && book.synced ==>
          match (book.lastUpdateId, msg.lastUpdateId)
          case (Some(held), Some(last)) =>
            && (outcome.Stale? <==> last <= held)
            && (outcome.Gap? <==> last > held && StartsAfter(msg, last) > held + 1)
            && (outcome.Gap? ==> outcome.expected == held + 1 && outcome.got == StartsAfter(msg, last))
          case _ => outcome.Delta?)
  }

  /** The first update a message covers; without that field, only its last one. */
  function StartsAfter(msg: BookMessage, last: nat): nat {
    match msg.firstUpdateId
    case Some(first) => first
    case None => last
  }

  /** The book afterwards: a snapshot replaces both sides, a delta overwrites them, a gap
  only loses sync, and nothing else changes anything. */
  ghost predicate Leaves(book: BookState, msg: BookMessage, outcome: BookApply, after: BookState) {
    match outcome
    case Snapshot =>
      && Overwritten(map[], msg.bids, after.bids) && Overwritten(map[], msg.asks, after.asks)
      && after.synced && after.lastUpdateId == msg.lastUpdateId && NamedBy(book, msg, after)
    case Delta =>
      && Overwritten(book.bids, msg.bids, after.bids) && Overwritten(book.asks, msg.asks, after.asks)
      && after.synced
      && (after.lastUpdateId == if msg.lastUpdateId.Some? then msg.lastUpdateId else book.lastUpdateId)
      && NamedBy(book, msg, after)
    case Gap(_, _) =>
      && !after.synced && after.(synced := true) == book.(synced := true)
    case _ => after == book
  }

  /** The time is the message's; the names are too if the book had none, and stay otherwise. */
  ghost predicate NamedBy(book: BookState, msg: BookMessage, after: BookState) {
    && after.exchangeTs == msg.exchangeTs
    && (book.symbol == "" ==> after.symbol == msg.symbol && after.exchange == msg.exchange)
    && (book.symbol != "" ==> after.symbol == book.symbol && after.exchange == book.exchange)
  }

  lemma ApplyMeaning(book: BookState, msg: BookMessage)
    ensures Answers(book, msg, Outcome(book, msg))
    ensures Leaves(book, msg, Outcome(book, msg), Applied(book, msg))
  {
    WritesOverwrite(map[], msg.bids);
    WritesOverwrite(map[], msg.asks);
    WritesOverwrite(book.bids, msg.bids);
    WritesOverwrite(book.asks, msg.asks);
  }

  /** The levels of a run of messages, one after the other. */
  function AllBids(msgs: seq<BookMessage>): seq<Level> {
    if msgs == [] then [] else AllBids(msgs[..|msgs| - 1]) + msgs[|msgs| - 1].bids
  }

  function AllAsks(msgs: seq<BookMessage>): seq<Level> {
    if msgs == [] then [] else AllAsks(msgs[..|msgs| - 1]) + msgs[|msgs| - 1].asks
  }

  lemma {:induction false} RunOfMore(book: BookState, msgs: seq<BookMessage>)
    requires msgs != []
    ensures Run(book, msgs) == Applied(Run(book, msgs[..|msgs| - 1]), msgs[|msgs| - 1])
    ensures Outcomes(book, msgs) == Outcomes(book, msgs[..|msgs| - 1]) +
                                    [Outcome(Run(book, msgs[..|msgs| - 1]), msgs[|msgs| - 1])]
    decreases msgs
  {
    if |msgs| == 1 {
    } else {
      RunOfMore(Applied(book, msgs[0]), msgs[1..]);
      assert msgs[1..][..|msgs| - 2] == msgs[..|msgs| - 1][1..];
    }
  }

  /** A synced book fed deltas without update ids, as Kraken and Coinbase send them: every
  one applies, and both sides end up overwritten by all their levels in turn. */
  lemma {:induction false} DeltasWithoutIdsApply(book: BookState, msgs: seq<BookMessage>)
    requires book.synced
    requires forall i :: 0 <= i < |msgs| ==> !msgs[i].isSnapshot && msgs[i].lastUpdateId.None?
    ensures forall i :: 0 <= i < |msgs| ==> Outcomes(book, msgs)[i] == Delta
    ensures var after := Run(book, msgs);
      && Overwritten(book.bids, AllBids(msgs), after.bids)
      && Overwritten(book.asks, AllAsks(msgs), after.asks)
      && after.synced && after.lastUpdateId == book.lastUpdateId
      && (msgs != [] ==> after.exchangeTs == msgs[|msgs| - 1].exchangeTs)
  {
    if msgs == [] {
    } else {
      var init, last := msgs[..|msgs| - 1], msgs[|msgs| - 1];
      DeltasWithoutIdsApply(book, init);
      RunOfMore(book, msgs);
      ApplyMeaning(Run(book, init), last);
      OverwrittenTwice(book.bids, AllBids(init), Run(book, init).bids, last.bids, Run(book, msgs).bids);
      OverwrittenTwice(book.asks, AllAsks(init), Run(book, init).asks, last.asks, Run(book, msgs).asks);
    }
  }

  ghost predicate NoZeroQuantities(book: BookState) {
    NoZeroLevels(book.bids) && NoZeroLevels(book.asks)
  }

  /** No level of quantity zero is ever stored, whatever is delivered. */
  lemma {:induction false} RunStoresNoZeroQuantity(book: BookState, msgs: seq<BookMessage>)
    requires NoZeroQuantities(book)
    ensures NoZeroQuantities(Run(book, msgs))
    decreases msgs
  {
    if msgs == [] {
    } else {
      ApplyKeepsNoZero(book.bids, msgs[0].bids);
      ApplyKeepsNoZero(book.asks, msgs[0].asks);
      ApplyKeepsNoZero(map[], msgs[0].bids);
      ApplyKeepsNoZero(map[], msgs[0].asks);
      RunStoresNoZeroQuantity(Applied(book, msgs[0]), msgs[1..]);
    }
  }

  /** Once a book has a symbol, no message renames it or moves it to another exchange. */
  lemma {:induction false} RunKeepsSource(book: BookState, msgs: seq<BookMessage>)
    requires book.symbol != ""
    ensures Run(book, msgs).symbol == book.symbol && Run(book, msgs).exchange == book.exchange
    decreases msgs
  {
    if msgs == [] {
    } else {
      RunKeepsSource(Applied(book, msgs[0]), msgs[1..]);
    }
  }

  /** An unsynced book keeps its contents through any run of deltas. */
  lemma {:induction false} UnsyncedIsFrozen(book: BookState, msgs: seq<BookMessage>)
    requires !book.synced
    requires forall i :: 0 <= i < |msgs| ==> !msgs[i].isSnapshot
    ensures Run(book, msgs) == book
    ensures forall i :: 0 <= i < |msgs| ==> Outcomes(book, msgs)[i] == AwaitingSnapshot
    decreases msgs
  {
    if msgs == [] {
    } else {
      UnsyncedIsFrozen(book, msgs[1..]);
    }
  }

  /** A gap leaves the contents as they were, and they stay so until a snapshot comes. */
  lemma GapFreezesBook(book: BookState, msg: BookMessage, deltas: seq<BookMessage>)
    requires Outcome(book, msg).Gap?
    requires forall i :: 0 <= i < |deltas| ==> !deltas[i].isSnapshot
    ensures Run(book, [msg] + deltas) == book.(synced := false)
  {
    assert ([msg] + deltas)[1..] == deltas;
    UnsyncedIsFrozen(Applied(book, msg), deltas);
  }

  lemma SnapshotLists(book: BookState, receiptTs: int)
    ensures var msg := SnapshotOf(book, receiptTs);
      && Lists(msg.bids, book.bids) && PricesFall(msg.bids)
      && Lists(msg.asks, book.asks) && PricesRise(msg.asks)
      && (forall p :: p in book.bids ==> HasPrice(msg.bids, p))
      && (forall p :: p in book.asks ==> HasPrice(msg.asks, p))
  {
    DescendingLists(book.bids);
    AscendingLists(book.asks);
    forall p | p in book.bids ensures HasPrice(Descending(book.bids), p) {
      DescendingComplete(book.bids, p);
    }
    forall p | p in book.asks ensures HasPrice(Ascending(book.asks), p) {
      AscendingComplete(book.asks, p);
    }
  }

  /** A fresh book fed an exported snapshot is the exporting book, and is synced. */
  lemma SnapshotRoundTrip(book: BookState, receiptTs: int)
    requires NoZeroQuantities(book)
    ensures Outcome(EMPTY_BOOK, SnapshotOf(book, receiptTs)) == Snapshot
    ensures Applied(EMPTY_BOOK, SnapshotOf(book, receiptTs)) == book.(synced := true)
  {
    SnapshotLists(book, receiptTs);
    ListingRebuilds(book.bids, Descending(book.bids));
    ListingRebuilds(book.asks, Ascending(book.asks));
  }
}
