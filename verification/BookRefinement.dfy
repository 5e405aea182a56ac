/** The local book against the venue's own book.

The venue numbers its updates 1, 2, 3, ...; update `i` is `log[i - 1]`. The true
book at id `n` is what the first `n` updates write over an empty book. A
truthful delta may conflate: for each price it need only end on the same write
as the updates it covers. */
module BookRefinement {
  import opened Options
  import opened LevelWrites
  import opened OrderBook

  datatype Update = Update(bids: seq<Level>, asks: seq<Level>)

  type VenueLog = seq<Update>

  datatype Book = Bids | Asks

  function LevelsOf(update: Update, book: Book): seq<Level> {
    if book.Bids? then update.bids else update.asks
  }

  /** Every write of the updates numbered `lo + 1` to `hi`. */
  function Writes(log: VenueLog, book: Book, lo: nat, hi: nat): seq<Level>
    requires hi <= |log|
    decreases hi
  {
    if hi <= lo then [] else Writes(log, book, lo, hi - 1) + LevelsOf(log[hi - 1], book)
  }

  function TrueSide(log: VenueLog, book: Book, n: nat): Side
    requires n <= |log|
  {
    ApplyLevels(map[], Writes(log, book, 0, n))
  }

  ghost predicate TruthfulSnapshot(log: VenueLog, msg: BookMessage) {
    && msg.isSnapshot
    && msg.lastUpdateId.Some?
    && msg.lastUpdateId.value <= |log|
    && ApplyLevels(map[], msg.bids) == TrueSide(log, Bids, msg.lastUpdateId.value)
    && ApplyLevels(map[], msg.asks) == TrueSide(log, Asks, msg.lastUpdateId.value)
  }

  ghost predicate TruthfulDelta(log: VenueLog, msg: BookMessage) {
    && !msg.isSnapshot
    && msg.lastUpdateId.Some?
    && msg.lastUpdateId.value <= |log|
    && SameWrites(msg.bids, Writes(log, Bids, CoveredFrom(msg), msg.lastUpdateId.value))
    && SameWrites(msg.asks, Writes(log, Asks, CoveredFrom(msg), msg.lastUpdateId.value))
  }

  ghost predicate Truthful(log: VenueLog, msg: BookMessage) {
    TruthfulSnapshot(log, msg) || TruthfulDelta(log, msg)
  }

  /** The id just before the first update that a delta covers. */
  function CoveredFrom(msg: BookMessage): nat
    requires msg.lastUpdateId.Some?
  {
    var first := msg.firstUpdateId.UnwrapOr(msg.lastUpdateId.value);
    if first == 0 then 0 else first - 1
  }

  /** The book holds the venue's book at its own last update id. */
  ghost predicate Refines(log: VenueLog, book: BookState) {
    match book.lastUpdateId
    case None => !book.synced
    case Some(n) =>
      n <= |log| && book.bids == TrueSide(log, Bids, n) && book.asks == TrueSide(log, Asks, n)
  }

  lemma {:induction false} WritesSplit(log: VenueLog, book: Book, lo: nat, mid: nat, hi: nat)
    requires lo <= mid <= hi <= |log|
    ensures Writes(log, book, lo, hi) == Writes(log, book, lo, mid) + Writes(log, book, mid, hi)
  {
    if mid == hi {
    } else {
      WritesSplit(log, book, lo, mid, hi - 1);
      var held, more, last := Writes(log, book, lo, mid), Writes(log, book, mid, hi - 1), LevelsOf(log[hi - 1], book);
      assert held + more + last == held + (more + last);
    }
  }

  /** Re-applying updates the book already holds, followed by new ones, lands on
  the true book: `from <= n` is the overlap. */
  lemma OverlapLandsOnTrueSide(log: VenueLog, book: Book, levels: seq<Level>, from: nat, n: nat, last: nat)
    requires from <= n < last <= |log|
    requires SameWrites(levels, Writes(log, book, from, last))
    ensures ApplyLevels(TrueSide(log, book, n), levels) == TrueSide(log, book, last)
  {
    var held, added := Writes(log, book, 0, n), Writes(log, book, n, last);
    var before, again := Writes(log, book, 0, from), Writes(log, book, from, n);
    WritesSplit(log, book, 0, n, last);
    WritesSplit(log, book, 0, from, n);
    WritesSplit(log, book, from, n, last);
    var result := ApplyLevels(TrueSide(log, book, n), levels);
    forall p ensures Lookup(result, p) == Lookup(TrueSide(log, book, last), p) {
      LastWriteWins(TrueSide(log, book, n), levels, p);
      LastWriteWins(map[], held, p);
      LastWriteWins(map[], held + added, p);
      LastWriteOfConcat(held, added, p);
      LastWriteOfConcat(before, again, p);
      LastWriteOfConcat(again, added, p);
    }
    SidesEqual(result, TrueSide(log, book, last));
  }

  lemma ApplyRefines(log: VenueLog, book: BookState, msg: BookMessage)
    requires Refines(log, book) && Truthful(log, msg)
    ensures Refines(log, Applied(book, msg))
  {
    if Outcome(book, msg).Delta? {
      var n, last := book.lastUpdateId.value, msg.lastUpdateId.value;
      OverlapLandsOnTrueSide(log, Bids, msg.bids, CoveredFrom(msg), n, last);
      OverlapLandsOnTrueSide(log, Asks, msg.asks, CoveredFrom(msg), n, last);
    }
  }

  /** After any run of truthful messages, delivered with any drops, duplicates and
  reordering, the book is the venue's book at its last update id. */
  lemma {:induction false} RunRefines(log: VenueLog, book: BookState, msgs: seq<BookMessage>)
    requires Refines(log, book)
    requires forall i :: 0 <= i < |msgs| ==> Truthful(log, msgs[i])
    ensures Refines(log, Run(book, msgs))
    decreases msgs
  {
    if msgs == [] {
    } else {
      ApplyRefines(log, book, msgs[0]);
      RunRefines(log, Applied(book, msgs[0]), msgs[1..]);
    }
  }

  lemma SyncedBookIsTrueBook(log: VenueLog, msgs: seq<BookMessage>)
    requires forall i :: 0 <= i < |msgs| ==> Truthful(log, msgs[i])
    ensures var book := Run(EMPTY_BOOK, msgs);
      book.synced ==>
        && book.lastUpdateId.Some?
        && book.lastUpdateId.value <= |log|
        && book.bids == TrueSide(log, Bids, book.lastUpdateId.value)
        && book.asks == TrueSide(log, Asks, book.lastUpdateId.value)
  {
    RunRefines(log, EMPTY_BOOK, msgs);
  }

  lemma RefiningBookHasNoZeros(log: VenueLog, book: BookState)
    requires Refines(log, book) && book.lastUpdateId.Some?
    ensures NoZeroQuantities(book)
  {
    ApplyKeepsNoZero(map[], Writes(log, Bids, 0, book.lastUpdateId.value));
    ApplyKeepsNoZero(map[], Writes(log, Asks, 0, book.lastUpdateId.value));
  }

  /** What a book that follows the venue exports is itself a truthful snapshot, even if
  the book has lost sync. */
  lemma ExportIsTruthful(log: VenueLog, book: BookState, receiptTs: int)
    requires Refines(log, book) && book.lastUpdateId.Some?
    ensures TruthfulSnapshot(log, SnapshotOf(book, receiptTs))
  {
    RefiningBookHasNoZeros(log, book);
    SnapshotLists(book, receiptTs);
    ListingRebuilds(book.bids, SnapshotOf(book, receiptTs).bids);
    ListingRebuilds(book.asks, SnapshotOf(book, receiptTs).asks);
  }

  /** So a second book, in whatever state and seeded from the first, follows the venue
  through everything truthful that it is then sent. */
  lemma SeededBookRefines(log: VenueLog, book: BookState, receiptTs: int, other: BookState, msgs: seq<BookMessage>)
    requires Refines(log, book) && book.lastUpdateId.Some?
    requires forall i :: 0 <= i < |msgs| ==> Truthful(log, msgs[i])
    ensures Applied(other, SnapshotOf(book, receiptTs)).synced
    ensures Refines(log, Run(Applied(other, SnapshotOf(book, receiptTs)), msgs))
  {
    ExportIsTruthful(log, book, receiptTs);
    RunRefines(log, Applied(other, SnapshotOf(book, receiptTs)), msgs);
  }
}
