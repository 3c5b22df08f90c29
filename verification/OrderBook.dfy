/** The order book as the code keeps it: two sides and a block of counters,
    updated in place.  Every method is proved against the value model in `Book`. */
module OrderBooks {
  import opened Ticks
  import opened Levels
  import opened Book
  import opened BookSides

  class OrderBook {
    const bids: BookSide
    const asks: BookSide
    var sequence: u64
    var lastUpdate: u64
    var symbolMismatches: u64
    var gaps: u64
    var reorders: u64
    var checksumFailures: u64
    var bidsSnapshotId: u32
    var asksSnapshotId: u32
    const symbol: Symbol
    const exchange: Exchange
    var initialized: bool

    ghost function Repr(): set<object> {
      {this, bids, bids.levels, asks, asks.levels}
    }

    ghost predicate Valid()
      reads Repr()
    {
      && bids != asks && bids.levels != asks.levels
      && bids.Valid(true) && asks.Valid(false)
    }

    ghost function State(): BookState
      requires Valid()
      reads Repr()
    {
      BookState(
        SideState(bids.Contents(), bidsSnapshotId), SideState(asks.Contents(), asksSnapshotId),
        sequence, lastUpdate, symbolMismatches, gaps, reorders, checksumFailures, symbol, exchange, initialized)
    }

    constructor (symbol: Symbol, exchange: Exchange)
      ensures Valid() && fresh(Repr())
      ensures State() == NewBook(symbol, exchange)
      ensures bids.count == asks.count == 0 && bidsSnapshotId == asksSnapshotId == 0xFFFF_FFFF
      ensures sequence == lastUpdate == symbolMismatches == gaps == reorders == checksumFailures == 0 && !initialized
    {
      bids := new BookSide();
      asks := new BookSide();
      sequence, lastUpdate := 0, 0;
      symbolMismatches, gaps, reorders, checksumFailures := 0, 0, 0, 0;
      bidsSnapshotId, asksSnapshotId := NO_SNAPSHOT, NO_SNAPSHOT;
      this.symbol, this.exchange := symbol, exchange;
      initialized := false;
    }

    method MaybeClearForSnapshot(t: Tick)
      requires Valid() && t.isSnapshot
      modifies Repr()
      ensures Valid() && State() == ClearForSnapshot(old(State()), t)
    {
      match t.side
      case Bid =>
        if t.snapshotId != bidsSnapshotId {
          bids.Clear();
          bidsSnapshotId := t.snapshotId;
        }
      case Ask =>
        if t.snapshotId != asksSnapshotId {
          asks.Clear();
          asksSnapshotId := t.snapshotId;
        }
    }

    method TrackSequenceNumber(seqno: u64)
      requires Valid()
      modifies this
      ensures Valid() && State() == TrackSequence(old(State()), seqno)
      ensures initialized && sequence == seqno
      ensures gaps
        == if old(initialized) && seqno > old(sequence) + 1 then WrappingAdd(old(gaps), 1) else old(gaps)
      ensures reorders
        == if old(initialized) && seqno <= old(sequence) then WrappingAdd(old(reorders), 1) else old(reorders)
    {
      if initialized {
        if seqno > sequence {
          // sequence is below another u64 here, so this addition never overflows
          var next: u64 := sequence + 1;
          if seqno != next {
            gaps := WrappingAdd(gaps, 1);
          }
        } else {
          reorders := WrappingAdd(reorders, 1);
        }
      } else {
        initialized := true;
      }
      sequence := seqno;
    }

    method UpdateOneSide(t: Tick) returns (r: DeltaResult)
      requires Valid()
      modifies Repr()
      ensures Valid() && (State(), r) == UpdateSide(old(State()), t)
    {
      match t.side
      case Bid => r := bids.ApplyDelta(t.price, t.qty, true);
      case Ask => r := asks.ApplyDelta(t.price, t.qty, false);
    }

    /** One tick, in a release build: a tick of another symbol is counted and discarded. */
    method Apply(t: Tick) returns (r: DeltaResult)
      requires Valid()
      modifies Repr()
      ensures Valid()
      ensures (State(), r) == ApplyTick(old(State()), t)
      ensures r in {Updated, Inserted, Removed, InsertedEvicted} ==>
        initialized && sequence == t.sequence && lastUpdate == t.tsRecv
      ensures r in {NoOp, Discarded} ==>
        && initialized == old(initialized) && sequence == old(sequence) && lastUpdate == old(lastUpdate)
        && gaps == old(gaps) && reorders == old(reorders)
      ensures symbolMismatches
        == if t.symbol != symbol then WrappingAdd(old(symbolMismatches), 1) else old(symbolMismatches)
    {
      if t.symbol != symbol {
        symbolMismatches := WrappingAdd(symbolMismatches, 1);
        return Discarded;
      }
      if t.isSnapshot {
        MaybeClearForSnapshot(t);
      }
      r := UpdateOneSide(t);
      if r != NoOp && r != Discarded {
        TrackSequenceNumber(t.sequence);
        lastUpdate := t.tsRecv;
      }
    }

    method ComputeSpread() returns (spread: Option<u64>)
      requires Valid()
      ensures spread == Spread(State())
    {
      var bid := bids.Best();
      var ask := asks.Best();
      if bid.None? || ask.None? {
        return None;
      }
      var b, a := bid.value.price, ask.value.price;
      spread := Some(if a >= b then a - b else 0);
    }

    method ComputeCrossed() returns (crossed: bool)
      requires Valid()
      ensures crossed == IsCrossed(State())
    {
      var bid := bids.Best();
      var ask := asks.Best();
      crossed := bid.Some? && ask.Some? && bid.value.price > ask.value.price;
    }

    method ComputeStale(now: u64, threshold: u64) returns (stale: bool)
      requires Valid()
      ensures stale == IsStale(State(), now, threshold)
    {
      var age := if now >= lastUpdate then now - lastUpdate else 0;
      stale := age > threshold;
    }

    /** The calls made to the visitor: the best n bids, then the best n asks,
        each side in the order of its levels. */
    method ForChecksum(n: nat) returns (emitted: seq<(Side, Level)>)
      requires Valid()
      ensures emitted == ChecksumInput(State(), n)
    {
      var first := VisitSide(bids, Bid, n);
      var second := VisitSide(asks, Ask, n);
      emitted := first + second;
    }

    method RecordChecksumFailure()
      requires Valid()
      modifies this
      ensures Valid()
      ensures State() == old(State()).(checksumFailures := WrappingAdd(old(checksumFailures), 1))
    {
      checksumFailures := WrappingAdd(checksumFailures, 1);
    }
  }

  function Tagged(side: Side, ls: seq<Level>): (r: seq<(Side, Level)>)
    ensures |r| == |ls| && forall i :: 0 <= i < |ls| ==> r[i] == (side, ls[i])
  {
    seq(|ls|, i requires 0 <= i < |ls| => (side, ls[i]))
  }

  method VisitSide(side: BookSide, tag: Side, n: nat) returns (emitted: seq<(Side, Level)>)
    requires side.Shape()
    ensures emitted == Tagged(tag, Top(side.Contents(), n))
  {
    emitted := [];
    var take := if n < side.count then n else side.count;
    var i := 0;
    while i < take
      invariant i <= take
      invariant emitted == Tagged(tag, side.levels[..i])
    {
      emitted := emitted + [(tag, side.levels[i])];
      i := i + 1;
    }
  }

  /** The best min(n, count) levels of each side, bids first. */
  function ChecksumInput(b: BookState, n: nat): seq<(Side, Level)> {
    Tagged(Bid, Top(b.bids.levels, n)) + Tagged(Ask, Top(b.asks.levels, n))
  }

  /** The listed levels of a sorted side are its best ones, best first. */
  lemma TopIsBest(descending: bool, ls: seq<Level>, n: nat)
    requires Sorted(descending, ls)
    ensures var top := Top(ls, n);
      && |top| == (if n < |ls| then n else |ls|)
      && Sorted(descending, top)
      && (forall l :: l in top ==> l in ls)
      && (forall x, y :: x in top && y in ls && y !in top ==> Better(descending, x.price, y.price))
  {
    var top := Top(ls, n);
    forall x, y | x in top && y in ls && y !in top ensures Better(descending, x.price, y.price) {
      var i :| 0 <= i < |top| && top[i] == x;
      var j :| 0 <= j < |ls| && ls[j] == y;
      assert forall k :: 0 <= k < |top| ==> top[k] == ls[k];
      assert j >= |top|;
    }
  }

  /** On every book reached from a fresh one the checksum input lists exactly the
      best min(n, count) bids downwards, then the best asks upwards. */
  lemma ChecksumInputMeans(symbol: Symbol, exchange: Exchange, ts: seq<Tick>, n: nat)
    ensures var b := RunTicks(NewBook(symbol, exchange), ts);
      var bids, asks := Top(b.bids.levels, n), Top(b.asks.levels, n);
      && ChecksumInput(b, n) == Tagged(Bid, bids) + Tagged(Ask, asks)
      && Sorted(true, bids) && Sorted(false, asks)
      && |bids| == (if n < |b.bids.levels| then n else |b.bids.levels|)
      && |asks| == (if n < |b.asks.levels| then n else |b.asks.levels|)
      && (forall x, y :: x in bids && y in b.bids.levels && y !in bids ==> x.price > y.price)
      && (forall x, y :: x in asks && y in b.asks.levels && y !in asks ==> x.price < y.price)
  {
    RunWellFormed(NewBook(symbol, exchange), ts);
    var b := RunTicks(NewBook(symbol, exchange), ts);
    TopIsBest(true, b.bids.levels, n);
    TopIsBest(false, b.asks.levels, n);
    assert forall x, y :: Better(true, x, y) <==> x > y;
    assert forall x, y :: Better(false, x, y) <==> x < y;
  }
}
