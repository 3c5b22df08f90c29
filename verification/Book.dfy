/** The order book as a value: what one tick and a run of ticks do to it. */
module Book {
  import opened Ticks
  import opened Levels

  datatype SideState = SideState(levels: seq<Level>, snapshotId: u32)

  /** Every field of the book; the counters are u64 words and wrap. */
  datatype BookState = BookState(
    bids: SideState,
    asks: SideState,
    sequence: u64,
    lastUpdate: u64,
    symbolMismatches: u64,
    gaps: u64,
    reorders: u64,
    checksumFailures: u64,
    symbol: Symbol,
    exchange: Exchange,
    initialized: bool)

  const EMPTY_SIDE := SideState([], NO_SNAPSHOT)

  function NewBook(symbol: Symbol, exchange: Exchange): BookState {
    BookState(EMPTY_SIDE, EMPTY_SIDE, 0, 0, 0, 0, 0, 0, symbol, exchange, false)
  }

  predicate WellFormedBook(b: BookState) {
    WellFormed(true, b.bids.levels) && WellFormed(false, b.asks.levels)
  }

  /** A side is cleared when a snapshot tick carries an id it has not stored. */
  predicate Clears(id: u32, t: Tick) {
    t.isSnapshot && t.snapshotId != id
  }

  /** The first tick of a snapshot batch clears its side. */
  function ClearForSnapshot(b: BookState, t: Tick): (b': BookState)
    ensures b' == b.(bids := b'.bids, asks := b'.asks)
  {
    match t.side
    case Bid => if Clears(b.bids.snapshotId, t) then b.(bids := SideState([], t.snapshotId)) else b
    case Ask => if Clears(b.asks.snapshotId, t) then b.(asks := SideState([], t.snapshotId)) else b
  }

  function UpdateSide(b: BookState, t: Tick): (r: (BookState, DeltaResult))
    ensures r.0 == b.(bids := r.0.bids, asks := r.0.asks)
  {
    match t.side
    case Bid =>
      var (ls, r) := ListDelta(true, b.bids.levels, t.price, t.qty);
      (b.(bids := b.bids.(levels := ls)), r)
    case Ask =>
      var (ls, r) := ListDelta(false, b.asks.levels, t.price, t.qty);
      (b.(asks := b.asks.(levels := ls)), r)
  }

  function TrackSequence(b: BookState, seqno: u64): BookState {
    if !b.initialized then b.(initialized := true, sequence := seqno)
    else if seqno <= b.sequence then b.(reorders := WrappingAdd(b.reorders, 1), sequence := seqno)
    else if seqno != b.sequence + 1 then b.(gaps := WrappingAdd(b.gaps, 1), sequence := seqno)
    else b.(sequence := seqno)
  }

  predicate Effective(r: DeltaResult) {
    r != NoOp && r != Discarded
  }

  /** The bookkeeping after a delta with result r; it never touches a side. */
  function Note(b: BookState, t: Tick, r: DeltaResult): (b': BookState)
    ensures b'.bids == b.bids && b'.asks == b.asks && b'.symbol == b.symbol
  {
    if Effective(r) then TrackSequence(b, t.sequence).(lastUpdate := t.tsRecv) else b
  }

  function ApplyTick(b: BookState, t: Tick): (BookState, DeltaResult) {
    if t.symbol != b.symbol then
      (b.(symbolMismatches := WrappingAdd(b.symbolMismatches, 1)), Discarded)
    else
      var (b', r) := UpdateSide(ClearForSnapshot(b, t), t);
      (Note(b', t, r), r)
  }

  /** What one tick does outside the sides, result code by result code: a tick of
      another symbol is counted and discarded; a tick that changed a level is
      tracked and stamped; any other leaves everything alone. */
  lemma ApplyMeans(b: BookState, t: Tick)
    ensures var (b', r) := ApplyTick(b, t);
      && (t.symbol != b.symbol ==>
            && r == Discarded
            && b' == b.(symbolMismatches := (b.symbolMismatches + 1) % 0x1_0000_0000_0000_0000))
      && (t.symbol == b.symbol && r in {Updated, Inserted, Removed, InsertedEvicted} ==>
            b' == b.(
              bids := b'.bids, asks := b'.asks,
              initialized := true, sequence := t.sequence, lastUpdate := t.tsRecv,
              gaps := if b.initialized && t.sequence > b.sequence + 1 then WrappingAdd(b.gaps, 1) else b.gaps,
              reorders := if b.initialized && t.sequence <= b.sequence then WrappingAdd(b.reorders, 1) else b.reorders))
      && (t.symbol == b.symbol && r in {NoOp, Discarded} ==>
            b' == b.(bids := b'.bids, asks := b'.asks))
  {
  }

  function RunTicks(b: BookState, ts: seq<Tick>): BookState {
    if ts == [] then b else ApplyTick(RunTicks(b, ts[..|ts| - 1]), ts[|ts| - 1]).0
  }

  lemma RunAppended(b: BookState, ts: seq<Tick>, t: Tick)
    ensures RunTicks(b, ts + [t]) == ApplyTick(RunTicks(b, ts), t).0
  {
    assert (ts + [t])[..|ts|] == ts;
  }

  lemma RunExtended(b: BookState, ts: seq<Tick>, k: nat)
    requires k < |ts|
    ensures RunTicks(b, ts[..k + 1]) == ApplyTick(RunTicks(b, ts[..k]), ts[k]).0
  {
    assert ts[..k + 1][..k] == ts[..k];
  }

  lemma {:induction false} RunConcat(b: BookState, ts: seq<Tick>, us: seq<Tick>)
    ensures RunTicks(b, ts + us) == RunTicks(RunTicks(b, ts), us)
  {
    if us == [] {
      assert ts + us == ts;
    } else {
      var n := |us| - 1;
      assert (ts + us)[..|ts + us| - 1] == ts + us[..n];
      RunConcat(b, ts, us[..n]);
    }
  }

  lemma UpdateKeepsWellFormed(b: BookState, t: Tick)
    requires WellFormedBook(b)
    ensures WellFormedBook(UpdateSide(b, t).0)
  {
    match t.side
    case Bid => DeltaMeaning(true, b.bids.levels, t.price, t.qty);
    case Ask => DeltaMeaning(false, b.asks.levels, t.price, t.qty);
  }

  lemma ApplyKeepsWellFormed(b: BookState, t: Tick)
    requires WellFormedBook(b)
    ensures WellFormedBook(ApplyTick(b, t).0)
  {
    UpdateKeepsWellFormed(ClearForSnapshot(b, t), t);
  }

  lemma {:induction false} RunWellFormed(b: BookState, ts: seq<Tick>)
    requires WellFormedBook(b)
    ensures WellFormedBook(RunTicks(b, ts))
    ensures |RunTicks(b, ts).bids.levels| <= 64 && |RunTicks(b, ts).asks.levels| <= 64
  {
    if ts != [] {
      RunWellFormed(b, ts[..|ts| - 1]);
      ApplyKeepsWellFormed(RunTicks(b, ts[..|ts| - 1]), ts[|ts| - 1]);
    }
  }

  // ----- queries

  function Best(side: SideState): Option<Level> {
    if side.levels == [] then None else Some(side.levels[0])
  }

  function Spread(b: BookState): Option<u64> {
    if Best(b.bids).None? || Best(b.asks).None? then None
    else
      var bid, ask := Best(b.bids).value.price, Best(b.asks).value.price;
      Some(if ask >= bid then ask - bid else 0)
  }

  predicate IsCrossed(b: BookState) {
    Best(b.bids).Some? && Best(b.asks).Some? && Best(b.bids).value.price > Best(b.asks).value.price
  }

  /** No update within the threshold of now. */
  predicate IsStale(b: BookState, now: u64, threshold: u64) {
    (if now >= b.lastUpdate then now - b.lastUpdate else 0) > threshold
  }

  /** The first level is the best of a sorted side. */
  lemma BestBeatsAll(descending: bool, ls: seq<Level>, l: Level)
    requires Sorted(descending, ls) && l in ls
    ensures l == ls[0] || Better(descending, ls[0].price, l.price)
  {
  }

  /** On every book reached from a fresh one: the crossed flag means that some
      bid trades through some ask; the spread is none exactly when a side is
      empty, zero exactly when some bid is at or above some ask, and otherwise
      the least difference over all pairs. */
  lemma QueriesMean(symbol: Symbol, exchange: Exchange, ts: seq<Tick>)
    ensures var b := RunTicks(NewBook(symbol, exchange), ts);
      && (IsCrossed(b) <==> exists x, y :: x in b.bids.levels && y in b.asks.levels && x.price > y.price)
      && (Spread(b).None? <==> b.bids.levels == [] || b.asks.levels == [])
      && (Spread(b) == Some(0) <==> exists x, y :: x in b.bids.levels && y in b.asks.levels && x.price >= y.price)
      && (Spread(b).Some? && Spread(b).value > 0 ==>
            && (forall x, y :: x in b.bids.levels && y in b.asks.levels ==> Spread(b).value <= y.price - x.price)
            && (exists x, y :: x in b.bids.levels && y in b.asks.levels && Spread(b).value == y.price - x.price))
  {
    var b := RunTicks(NewBook(symbol, exchange), ts);
    RunWellFormed(NewBook(symbol, exchange), ts);
    if b.bids.levels != [] && b.asks.levels != [] {
      var bid, ask := b.bids.levels[0], b.asks.levels[0];
      assert bid in b.bids.levels && ask in b.asks.levels;
      forall x | x in b.bids.levels ensures x.price <= bid.price {
        BestBeatsAll(true, b.bids.levels, x);
      }
      forall y | y in b.asks.levels ensures y.price >= ask.price {
        BestBeatsAll(false, b.asks.levels, y);
      }
    }
  }
}
