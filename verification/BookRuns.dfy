/** What holds of the book after any run of ticks: the sides do not influence
    each other, clears follow the snapshot ids, and the top of each side is exact. */
module BookRuns {
  import opened Ticks
  import opened Levels
  import opened DeepBook
  import opened Book

  // ----- the sides are separate

  function SideOf(b: BookState, side: Side): SideState {
    match side case Bid => b.bids case Ask => b.asks
  }

  predicate Descending(side: Side) {
    side == Bid
  }

  /** The ticks of a run that concern one side of one symbol's book. */
  function Stream(symbol: Symbol, side: Side, ts: seq<Tick>): seq<Tick> {
    if ts == [] then []
    else
      var last := ts[|ts| - 1];
      var rest := Stream(symbol, side, ts[..|ts| - 1]);
      if last.symbol == symbol && last.side == side then rest + [last] else rest
  }

  /** One side on its own. */
  function SideTick(descending: bool, st: SideState, t: Tick): SideState {
    var cleared := if Clears(st.snapshotId, t) then SideState([], t.snapshotId) else st;
    cleared.(levels := ListDelta(descending, cleared.levels, t.price, t.qty).0)
  }

  function SideRun(descending: bool, st: SideState, ts: seq<Tick>): SideState {
    if ts == [] then st
    else SideTick(descending, SideRun(descending, st, ts[..|ts| - 1]), ts[|ts| - 1])
  }

  lemma UpdateOnSide(b: BookState, t: Tick, side: Side)
    ensures SideOf(UpdateSide(ClearForSnapshot(b, t), t).0, side)
      == if t.side == side then SideTick(Descending(side), SideOf(b, side), t) else SideOf(b, side)
  {
  }

  lemma TickOnSide(b: BookState, t: Tick, side: Side)
    ensures SideOf(ApplyTick(b, t).0, side)
      == if t.symbol == b.symbol && t.side == side then SideTick(Descending(side), SideOf(b, side), t)
         else SideOf(b, side)
    ensures ApplyTick(b, t).0.symbol == b.symbol
  {
    if t.symbol == b.symbol {
      UpdateOnSide(b, t, side);
    }
  }

  /** After any run each side and its snapshot id depend only on the stream of
      that side, whatever the interleaving with other ticks. */
  lemma {:induction false} SideSeparation(b: BookState, ts: seq<Tick>, side: Side)
    ensures SideOf(RunTicks(b, ts), side)
      == SideRun(Descending(side), SideOf(b, side), Stream(b.symbol, side, ts))
    ensures RunTicks(b, ts).symbol == b.symbol
  {
    if ts != [] {
      var prefix, t := ts[..|ts| - 1], ts[|ts| - 1];
      SideSeparation(b, prefix, side);
      TickOnSide(RunTicks(b, prefix), t, side);
      var stream := Stream(b.symbol, side, prefix);
      if t.symbol == b.symbol && t.side == side {
        assert (stream + [t])[..|stream|] == stream;
      }
    }
  }

  lemma InterleavingIrrelevant(b: BookState, ts: seq<Tick>, us: seq<Tick>)
    requires Stream(b.symbol, Bid, ts) == Stream(b.symbol, Bid, us)
    requires Stream(b.symbol, Ask, ts) == Stream(b.symbol, Ask, us)
    ensures RunTicks(b, ts).bids == RunTicks(b, us).bids
    ensures RunTicks(b, ts).asks == RunTicks(b, us).asks
  {
    SideSeparation(b, ts, Bid);
    SideSeparation(b, us, Bid);
    SideSeparation(b, ts, Ask);
    SideSeparation(b, us, Ask);
  }

  // ----- the deltas since the last clear

  function StoredId(id: u32, ts: seq<Tick>): u32 {
    if ts == [] then id
    else if ts[|ts| - 1].isSnapshot then ts[|ts| - 1].snapshotId
    else StoredId(id, ts[..|ts| - 1])
  }

  function DeltaOf(t: Tick): Delta {
    Delta(t.price, t.qty)
  }

  /** The deltas of a stream from its last clearing tick on. */
  function Epoch(id: u32, ts: seq<Tick>): seq<Delta> {
    if ts == [] then []
    else
      var prefix, t := ts[..|ts| - 1], ts[|ts| - 1];
      (if Clears(StoredId(id, prefix), t) then [] else Epoch(id, prefix)) + [DeltaOf(t)]
  }

  /** A side that started empty holds what the deltas of its current epoch left. */
  lemma {:induction false} SideIsEpoch(descending: bool, id: u32, ts: seq<Tick>)
    ensures SideRun(descending, SideState([], id), ts)
      == SideState(SideAfter(descending, Epoch(id, ts)), StoredId(id, ts))
  {
    if ts != [] {
      var prefix, t := ts[..|ts| - 1], ts[|ts| - 1];
      SideIsEpoch(descending, id, prefix);
      var before := if Clears(StoredId(id, prefix), t) then [] else Epoch(id, prefix);
      Appended(descending, before, DeltaOf(t));
    }
  }

  lemma StreamAppended(symbol: Symbol, side: Side, ts: seq<Tick>, t: Tick)
    ensures Stream(symbol, side, ts + [t])
      == Stream(symbol, side, ts) + if t.symbol == symbol && t.side == side then [t] else []
  {
    assert (ts + [t])[..|ts|] == ts;
  }

  lemma EpochAppended(id: u32, ts: seq<Tick>, t: Tick)
    ensures Epoch(id, ts + [t]) == (if Clears(StoredId(id, ts), t) then [] else Epoch(id, ts)) + [DeltaOf(t)]
  {
    assert (ts + [t])[..|ts|] == ts;
  }

  // ----- clears

  /** A tick of zero quantity can clear a side and still report `NoOp`: the result
      does not mean that the side kept its levels.  It did keep them exactly when
      the tick did not clear or found the side empty.  Nothing else changes. */
  lemma NoOpKeepsSideIff(b: BookState, t: Tick)
    requires t.symbol == b.symbol && ApplyTick(b, t).1 == NoOp
    ensures SideOf(ApplyTick(b, t).0, t.side).levels == SideOf(b, t.side).levels
      <==> !Clears(SideOf(b, t.side).snapshotId, t) || SideOf(b, t.side).levels == []
    ensures var b' := ApplyTick(b, t).0;
      b' == b.(bids := b'.bids, asks := b'.asks)
  {
    UpdateOnSide(b, t, t.side);
  }

  function BidTick(b: BookState, price: u64, qty: u64, isSnapshot: bool, id: u32): Tick {
    Tick(price, qty, 0, 0, 0, b.symbol, b.exchange, Bid, isSnapshot, 0, id)
  }

  lemma FirstBid(symbol: Symbol, exchange: Exchange, price: u64)
    ensures var b := NewBook(symbol, exchange);
      var b' := ApplyTick(b, BidTick(b, price, 1, false, 0)).0;
      && b'.bids == SideState([Level(price, 1)], NO_SNAPSHOT)
      && b'.symbol == symbol && b'.exchange == exchange
  {
    OneLevel(true, price);
  }

  /** One bid, and then a snapshot tick that cancels a price never quoted: the
      result is `NoOp` and the bid is gone. */
  lemma NoOpCanClear(symbol: Symbol, exchange: Exchange)
    ensures var b0 := NewBook(symbol, exchange);
      var b := ApplyTick(b0, BidTick(b0, 100, 1, false, 0)).0;
      var (b', r) := ApplyTick(b, BidTick(b0, 90, 0, true, 0));
      r == NoOp && b.bids.levels == [Level(100, 1)] && b'.bids.levels == []
  {
    FirstBid(symbol, exchange, 100);
    var b0 := NewBook(symbol, exchange);
    var b := ApplyTick(b0, BidTick(b0, 100, 1, false, 0)).0;
    UpdateOnSide(b, BidTick(b0, 90, 0, true, 0), Bid);
  }

  /** How often a run clears a side. */
  function ClearsMade(b: BookState, ts: seq<Tick>, side: Side): nat {
    if ts == [] then 0
    else
      var prefix, t := ts[..|ts| - 1], ts[|ts| - 1];
      ClearsMade(b, prefix, side)
      + if t.symbol == b.symbol && t.side == side && Clears(SideOf(RunTicks(b, prefix), side).snapshotId, t)
        then 1 else 0
  }

  function SnapshotIds(ts: seq<Tick>): seq<u32> {
    if ts == [] then []
    else
      var rest := SnapshotIds(ts[..|ts| - 1]);
      if ts[|ts| - 1].isSnapshot then rest + [ts[|ts| - 1].snapshotId] else rest
  }

  /** Places where neighbours differ. */
  function Changes(ids: seq<u32>): nat {
    if |ids| <= 1 then 0
    else Changes(ids[..|ids| - 1]) + if ids[|ids| - 1] != ids[|ids| - 2] then 1 else 0
  }

  lemma ChangesAppended(ids: seq<u32>, id: u32)
    requires ids != []
    ensures Changes(ids + [id]) == Changes(ids) + if id != ids[|ids| - 1] then 1 else 0
  {
    assert (ids + [id])[..|ids|] == ids;
  }

  /** The stored id, and after it the snapshot ids of a side's stream. */
  function IdHistory(b: BookState, ts: seq<Tick>, side: Side): (ids: seq<u32>)
    ensures ids != []
  {
    [SideOf(b, side).snapshotId] + SnapshotIds(Stream(b.symbol, side, ts))
  }

  lemma IdsAppended(ts: seq<Tick>, t: Tick)
    ensures SnapshotIds(ts + [t]) == SnapshotIds(ts) + if t.isSnapshot then [t.snapshotId] else []
  {
    assert (ts + [t])[..|ts|] == ts;
  }

  lemma HistoryKept(b: BookState, ts: seq<Tick>, t: Tick, side: Side)
    requires !(t.symbol == b.symbol && t.side == side && t.isSnapshot)
    ensures IdHistory(b, ts + [t], side) == IdHistory(b, ts, side)
  {
    StreamAppended(b.symbol, side, ts, t);
    IdsAppended(Stream(b.symbol, side, ts), t);
  }

  lemma HistoryAppended(b: BookState, ts: seq<Tick>, t: Tick)
    requires t.symbol == b.symbol && t.isSnapshot
    ensures IdHistory(b, ts + [t], t.side) == IdHistory(b, ts, t.side) + [t.snapshotId]
  {
    StreamAppended(b.symbol, t.side, ts, t);
    IdsAppended(Stream(b.symbol, t.side, ts), t);
  }

  /** The last id is the stored one, and there were as many clears as changes. */
  ghost predicate IdsTell(ids: seq<u32>, stored: u32, clears: nat) {
    ids != [] && clears == Changes(ids) && stored == ids[|ids| - 1]
  }

  lemma IdsTellNext(ids: seq<u32>, stored: u32, clears: nat, id: u32)
    requires IdsTell(ids, stored, clears)
    ensures IdsTell(ids + [id], id, clears + if id != stored then 1 else 0)
  {
    ChangesAppended(ids, id);
  }

  lemma ClearsMadeNext(b: BookState, ts: seq<Tick>, t: Tick, side: Side)
    ensures var before := SideOf(RunTicks(b, ts), side).snapshotId;
      var mine := t.symbol == b.symbol && t.side == side;
      && ClearsMade(b, ts + [t], side) == ClearsMade(b, ts, side) + (if mine && Clears(before, t) then 1 else 0)
      && SideOf(RunTicks(b, ts + [t]), side).snapshotId == if mine && t.isSnapshot then t.snapshotId else before
  {
    assert (ts + [t])[..|ts|] == ts;
    SideSeparation(b, ts, side);
    TickOnSide(RunTicks(b, ts), t, side);
  }

  ghost predicate IdsTellRun(b: BookState, ts: seq<Tick>, side: Side) {
    IdsTell(IdHistory(b, ts, side), SideOf(RunTicks(b, ts), side).snapshotId, ClearsMade(b, ts, side))
  }

  lemma IdsTellStep(b: BookState, ts: seq<Tick>, t: Tick, side: Side)
    requires IdsTellRun(b, ts, side)
    ensures IdsTellRun(b, ts + [t], side)
  {
    ClearsMadeNext(b, ts, t, side);
    if t.symbol == b.symbol && t.side == side && t.isSnapshot {
      HistoryAppended(b, ts, t);
      IdsTellNext(IdHistory(b, ts, side), SideOf(RunTicks(b, ts), side).snapshotId,
                  ClearsMade(b, ts, side), t.snapshotId);
    } else {
      HistoryKept(b, ts, t, side);
    }
  }

  /** A side's stored id is the last of its history, and it was cleared once for
      every change in that history, which begins with u32::MAX on a fresh book. */
  lemma {:induction false} ClearsAreChanges(b: BookState, ts: seq<Tick>, side: Side)
    ensures IdsTellRun(b, ts, side)
  {
    if ts != [] {
      ClearsAreChanges(b, ts[..|ts| - 1], side);
      IdsTellStep(b, ts[..|ts| - 1], ts[|ts| - 1], side);
      assert ts[..|ts| - 1] + [ts[|ts| - 1]] == ts;
    }
  }

  // ----- what the result codes tell

  lemma FreshSide(symbol: Symbol, exchange: Exchange, ts: seq<Tick>, side: Side)
    ensures var stream := Stream(symbol, side, ts);
      SideOf(RunTicks(NewBook(symbol, exchange), ts), side)
        == SideState(SideAfter(Descending(side), Epoch(NO_SNAPSHOT, stream)), StoredId(NO_SNAPSHOT, stream))
  {
    SideSeparation(NewBook(symbol, exchange), ts, side);
    SideIsEpoch(Descending(side), NO_SNAPSHOT, Stream(symbol, side, ts));
  }

  /** The deltas that reached a side of a fresh book since its last clear. */
  function Since(symbol: Symbol, ts: seq<Tick>, side: Side): seq<Delta> {
    Epoch(NO_SNAPSHOT, Stream(symbol, side, ts))
  }

  lemma ResultOnSide(b: BookState, t: Tick)
    requires t.symbol == b.symbol
    ensures var st := SideOf(b, t.side);
      ApplyTick(b, t).1
        == ListDelta(Descending(t.side), if Clears(st.snapshotId, t) then [] else st.levels, t.price, t.qty).1
  {
  }

  /** The result code that `apply` returns for a tick is that of its delta among
      the deltas since the last clear. */
  lemma ResultIsLast(symbol: Symbol, exchange: Exchange, ts: seq<Tick>, t: Tick)
    requires t.symbol == symbol
    ensures var ds := Since(symbol, ts + [t], t.side);
      && ds == (if Clears(StoredId(NO_SNAPSHOT, Stream(symbol, t.side, ts)), t) then [] else Since(symbol, ts, t.side))
               + [DeltaOf(t)]
      && ApplyTick(RunTicks(NewBook(symbol, exchange), ts), t).1 == LastResult(Descending(t.side), ds)
  {
    var b := RunTicks(NewBook(symbol, exchange), ts);
    var stream := Stream(symbol, t.side, ts);
    SideSeparation(NewBook(symbol, exchange), ts, t.side);
    FreshSide(symbol, exchange, ts, t.side);
    ResultOnSide(b, t);
    StreamAppended(symbol, t.side, ts, t);
    EpochAppended(NO_SNAPSHOT, stream, t);
    Appended(Descending(t.side), if Clears(StoredId(NO_SNAPSHOT, stream), t) then [] else Epoch(NO_SNAPSHOT, stream), DeltaOf(t));
  }

  /** The codes that `apply` returned for a side's ticks since its last clear. */
  function Codes(b: BookState, ts: seq<Tick>, side: Side): seq<DeltaResult> {
    if ts == [] then []
    else
      var prefix, t := ts[..|ts| - 1], ts[|ts| - 1];
      var before := RunTicks(b, prefix);
      if t.symbol != b.symbol || t.side != side then Codes(b, prefix, side)
      else
        (if Clears(SideOf(before, side).snapshotId, t) then [] else Codes(b, prefix, side))
        + [ApplyTick(before, t).1]
  }

  lemma {:induction false} CodesAreResults(symbol: Symbol, exchange: Exchange, ts: seq<Tick>, side: Side)
    ensures Codes(NewBook(symbol, exchange), ts, side) == Results(Descending(side), Since(symbol, ts, side))
  {
    if ts != [] {
      var prefix, t := ts[..|ts| - 1], ts[|ts| - 1];
      assert ts == prefix + [t];
      CodesAreResults(symbol, exchange, prefix, side);
      StreamAppended(symbol, side, prefix, t);
      if t.symbol == symbol && t.side == side {
        FreshSide(symbol, exchange, prefix, side);
        ResultIsLast(symbol, exchange, prefix, t);
        ResultsAppended(Descending(side),
          if Clears(StoredId(NO_SNAPSHOT, Stream(symbol, side, prefix)), t) then [] else Since(symbol, prefix, side),
          DeltaOf(t));
      }
    }
  }

  lemma ResultsAppended(descending: bool, ds: seq<Delta>, d: Delta)
    ensures Results(descending, ds + [d]) == Results(descending, ds) + [LastResult(descending, ds + [d])]
  {
    assert (ds + [d])[..|ds|] == ds;
  }

  /** What result codes since a clear tell about the levels ls, if `ranking` lists
      the unbounded book: the best 64 - L levels are right, L counting the
      removals after the first eviction or discard; and there are as many levels
      as were inserted into free room less those removed. */
  predicate CodesTell(codes: seq<DeltaResult>, ls: seq<Level>, ranking: seq<Level>) {
    && AgreeTo(MAX_LEVELS - LateIn(codes), ls, ranking)
    && |ls| == Times(codes, Inserted) - Times(codes, Removed)
  }

  lemma CodesOfRun(descending: bool, ds: seq<Delta>, ranking: seq<Level>)
    requires IsRanking(descending, Deep(ds), ranking)
    ensures CodesTell(Results(descending, ds), SideAfter(descending, ds), ranking)
  {
    TopOfBookExact(descending, ds, ranking);
    LevelConservation(descending, ds);
    ResultsCount(descending, ds, Inserted);
    ResultsCount(descending, ds, Removed);
    ResultsLate(descending, ds);
  }

  /** Top-of-book exactness and level conservation of a whole book, in terms of the
      codes that `apply` returned for a side's ticks since its last clear. */
  lemma TopOfSideExact(symbol: Symbol, exchange: Exchange, ts: seq<Tick>, side: Side, ranking: seq<Level>)
    requires IsRanking(Descending(side), Deep(Since(symbol, ts, side)), ranking)
    ensures var b := NewBook(symbol, exchange);
      CodesTell(Codes(b, ts, side), SideOf(RunTicks(b, ts), side).levels, ranking)
  {
    CodesOfRun(Descending(side), Since(symbol, ts, side), ranking);
    FreshSide(symbol, exchange, ts, side);
    CodesAreResults(symbol, exchange, ts, side);
  }

  // ----- the first snapshot

  /** A fresh book: both sides empty, both ids u32::MAX, every counter at zero. */
  lemma FreshBook(symbol: Symbol, exchange: Exchange)
    ensures NewBook(symbol, exchange)
      == BookState(SideState([], 0xFFFF_FFFF), SideState([], 0xFFFF_FFFF), 0, 0, 0, 0, 0, 0, symbol, exchange, false)
  {
  }

  predicate NoSnapshots(symbol: Symbol, side: Side, ts: seq<Tick>) {
    forall i :: 0 <= i < |ts| ==> !(ts[i].symbol == symbol && ts[i].side == side && ts[i].isSnapshot)
  }

  lemma {:induction false} NoSnapshotsNoIds(symbol: Symbol, side: Side, ts: seq<Tick>)
    requires NoSnapshots(symbol, side, ts)
    ensures SnapshotIds(Stream(symbol, side, ts)) == []
  {
    if ts != [] {
      var prefix, t := ts[..|ts| - 1], ts[|ts| - 1];
      NoSnapshotsNoIds(symbol, side, prefix);
      StreamAppended(symbol, side, prefix, t);
      IdsAppended(Stream(symbol, side, prefix), t);
      assert prefix + [t] == ts;
    }
  }

  /** The first snapshot tick of a side, after any run on a fresh book: it finds the
      side as it is if its id is u32::MAX, and cleared, for the first time, exactly
      if not. */
  lemma FirstSnapshot(symbol: Symbol, exchange: Exchange, ts: seq<Tick>, t: Tick)
    requires NoSnapshots(symbol, t.side, ts) && t.symbol == symbol && t.isSnapshot
    ensures var b := NewBook(symbol, exchange);
      var found := if t.snapshotId == 0xFFFF_FFFF then SideOf(RunTicks(b, ts), t.side).levels else [];
      && SideOf(RunTicks(b, ts + [t]), t.side)
           == SideState(ListDelta(Descending(t.side), found, t.price, t.qty).0, t.snapshotId)
      && ClearsMade(b, ts + [t], t.side) == (if t.snapshotId == 0xFFFF_FFFF then 0 else 1)
  {
    var b := NewBook(symbol, exchange);
    NoSnapshotsNoIds(symbol, t.side, ts);
    ClearsAreChanges(b, ts, t.side);
    ClearsMadeNext(b, ts, t, t.side);
    SideSeparation(b, ts, t.side);
    RunAppended(b, ts, t);
    TickOnSide(RunTicks(b, ts), t, t.side);
  }

  /** A tick of the book's symbol is discarded, or evicts a level, only when it
      finds its side full and does not clear it. */
  lemma LossOnlyWhenFull(b: BookState, t: Tick)
    requires t.symbol == b.symbol && WellFormedBook(b) && Loses(ApplyTick(b, t).1)
    ensures |SideOf(b, t.side).levels| == 64 && !Clears(SideOf(b, t.side).snapshotId, t)
  {
    ResultOnSide(b, t);
  }
}
