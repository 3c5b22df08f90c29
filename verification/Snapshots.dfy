/** Snapshot batches: ticks of one side with one id and no zero quantity.  A batch
    whose id is new replaces the side; a batch whose id is already stored, such as
    a first snapshot with the id u32::MAX, is merged into what the side holds. */
module Snapshots {
  import opened Ticks
  import opened Levels
  import opened DeepBook
  import opened Book
  import opened BookRuns

  function DeltasOf(ts: seq<Tick>): (ds: seq<Delta>)
    ensures |ds| == |ts| && forall i :: 0 <= i < |ts| ==> ds[i] == DeltaOf(ts[i])
  {
    seq(|ts|, i requires 0 <= i < |ts| => DeltaOf(ts[i]))
  }

  predicate IsBatch(id: u32, batch: seq<Tick>) {
    batch != [] && forall i :: 0 <= i < |batch| ==>
      batch[i].isSnapshot && batch[i].snapshotId == id && batch[i].qty > 0
  }

  predicate NoZeros(ds: seq<Delta>) {
    forall i :: 0 <= i < |ds| ==> ds[i].qty > 0
  }

  // ----- levels as deltas

  /** A side as `apply` leaves it: well-formed and without zero quantities. */
  predicate Settled(descending: bool, ls: seq<Level>) {
    WellFormed(descending, ls) && forall i :: 0 <= i < |ls| ==> ls[i].qty > 0
  }

  function LevelDeltas(ls: seq<Level>): (ds: seq<Delta>)
    ensures |ds| == |ls| && forall i :: 0 <= i < |ls| ==> ds[i] == Delta(ls[i].price, ls[i].qty)
  {
    seq(|ls|, i requires 0 <= i < |ls| => Delta(ls[i].price, ls[i].qty))
  }

  lemma AppendLast(descending: bool, ls: seq<Level>, l: Level)
    requires Settled(descending, ls + [l])
    ensures Settled(descending, ls) && ListDelta(descending, ls, l.price, l.qty) == (ls + [l], Inserted)
  {
    var longer := ls + [l];
    forall k | 0 <= k < |ls| ensures Better(descending, ls[k].price, l.price) && ls[k].qty > 0 {
      assert longer[k] == ls[k] && longer[|ls|] == l;
    }
    forall i, j | 0 <= i < j < |ls| ensures Better(descending, ls[i].price, ls[j].price) {
      assert longer[i] == ls[i] && longer[j] == ls[j];
    }
    InsertionUnique(descending, ls, l.price, |ls|);
    PositionTracks(ls, l.price);
    assert longer[|ls|].qty > 0;
    assert InsertedAt(ls, |ls|, Level(l.price, l.qty)) == longer;
  }

  /** Ranked levels, offered in order, build the side that lists them. */
  lemma {:induction false} Rebuilt(descending: bool, ls: seq<Level>)
    requires Settled(descending, ls)
    ensures SideAfter(descending, LevelDeltas(ls)) == ls
    ensures IsRanking(descending, Deep(LevelDeltas(ls)), ls)
  {
    if ls != [] {
      var n := |ls| - 1;
      var rest, l := ls[..n], ls[n];
      assert ls == rest + [l];
      AppendLast(descending, rest, l);
      Rebuilt(descending, rest);
      assert LevelDeltas(ls) == LevelDeltas(rest) + [Delta(l.price, l.qty)];
      Appended(descending, LevelDeltas(rest), Delta(l.price, l.qty));
      RankingExtended(descending, Deep(LevelDeltas(rest)), rest, l);
    }
  }

  lemma RankingExtended(descending: bool, deep: map<u64, u64>, ls: seq<Level>, l: Level)
    requires IsRanking(descending, deep, ls) && Sorted(descending, ls + [l])
    ensures IsRanking(descending, deep[l.price := l.qty], ls + [l])
  {
    var longer := ls + [l];
    forall k | 0 <= k < |ls| ensures ls[k].price != l.price {
      assert Better(descending, longer[k].price, longer[|ls|].price);
    }
    forall x ensures x in longer <==> x.price in deep[l.price := l.qty] && deep[l.price := l.qty][x.price] == x.qty {
      assert x in longer <==> x in ls || x == l;
      assert x in ls ==> x.price != l.price;
    }
  }

  /** Without cancellations a run only overwrites the unbounded book. */
  lemma {:induction false} DeepMerged(before: seq<Delta>, ds: seq<Delta>)
    requires NoZeros(ds)
    ensures Deep(before + ds) == Deep(before) + Deep(ds)
  {
    if ds == [] {
      assert before + ds == before;
    } else {
      var n := |ds| - 1;
      assert before + ds == (before + ds[..n]) + [ds[n]];
      assert (before + ds)[..|before + ds| - 1] == before + ds[..n];
      DeepMerged(before, ds[..n]);
    }
  }

  // ----- a batch on one side

  /** With no zero quantity nothing is removed, so the best 64 levels are exact. */
  lemma {:induction false} NoRemovals(descending: bool, ds: seq<Delta>)
    requires NoZeros(ds)
    ensures Late(descending, ds) == 0
  {
    if ds != [] {
      NoRemovals(descending, ds[..|ds| - 1]);
    }
  }

  lemma BatchKept(descending: bool, ds: seq<Delta>, ranking: seq<Level>)
    requires NoZeros(ds) && IsRanking(descending, Deep(ds), ranking)
    ensures AgreeTo(MAX_LEVELS, SideAfter(descending, ds), ranking) && |SideAfter(descending, ds)| <= MAX_LEVELS
  {
    NoRemovals(descending, ds);
    TopOfBookExact(descending, ds, ranking);
    LevelConservation(descending, ds);
  }

  /** What a batch with this id is put on: the side's levels if it has the id
      already, else nothing. */
  function Prior(st: SideState, id: u32): seq<Level> {
    if st.snapshotId == id then st.levels else []
  }

  lemma BatchTick(descending: bool, st: SideState, id: u32, t: Tick)
    requires t.isSnapshot && t.snapshotId == id
    ensures SideTick(descending, st, t) == SideState(ListDelta(descending, Prior(st, id), t.price, t.qty).0, id)
  {
  }

  lemma {:induction false} BatchRun(descending: bool, st: SideState, id: u32, batch: seq<Tick>)
    requires IsBatch(id, batch) && Settled(descending, Prior(st, id))
    ensures SideRun(descending, st, batch)
      == SideState(SideAfter(descending, LevelDeltas(Prior(st, id)) + DeltasOf(batch)), id)
  {
    var n := |batch| - 1;
    var prefix, t := batch[..n], batch[n];
    var held := LevelDeltas(Prior(st, id));
    assert held + DeltasOf(batch) == (held + DeltasOf(prefix)) + [DeltaOf(t)];
    Appended(descending, held + DeltasOf(prefix), DeltaOf(t));
    BatchTick(descending, SideRun(descending, st, prefix), id, t);
    if n > 0 {
      BatchRun(descending, st, id, prefix);
    } else {
      Rebuilt(descending, Prior(st, id));
      assert held + DeltasOf(prefix) == held;
    }
  }

  /** The old levels that a batch neither overwrites nor pushes out. */
  predicate Survives(descending: bool, l: Level, deep: map<u64, u64>, ranking: seq<Level>) {
    l.price !in deep && !Covers(descending, ranking, MAX_LEVELS, l.price)
  }

  /** Merging deltas into old levels leaves the best 64 of the deltas alone exactly
      when no old level survives. */
  lemma MergedIff(descending: bool, held: seq<Level>, ds: seq<Delta>, ranking: seq<Level>)
    requires Settled(descending, held) && NoZeros(ds) && IsRanking(descending, Deep(ds), ranking)
    ensures SideAfter(descending, LevelDeltas(held) + ds) == Top(ranking, MAX_LEVELS)
      <==> forall i :: 0 <= i < |held| ==> !Survives(descending, held[i], Deep(ds), ranking)
  {
    var all := LevelDeltas(held) + ds;
    Rebuilt(descending, held);
    DeepMerged(LevelDeltas(held), ds);
    var merged := RankingExists(descending, Deep(all));
    BatchKept(descending, all, merged);
    MergedRankings(descending, Deep(LevelDeltas(held)), Deep(ds), held, ranking, merged);
    PrefixAgreesIff(descending, ranking, merged, MAX_LEVELS);
  }

  lemma MergedRankings(descending: bool, deep1: map<u64, u64>, deep2: map<u64, u64>,
                       r1: seq<Level>, r2: seq<Level>, r: seq<Level>)
    requires IsRanking(descending, deep1, r1) && IsRanking(descending, deep2, r2)
    requires IsRanking(descending, deep1 + deep2, r)
    ensures forall l :: l in r2 ==> l in r
    ensures Approximates(descending, r2, r, MAX_LEVELS)
      <==> forall i :: 0 <= i < |r1| ==> !Survives(descending, r1[i], deep2, r2)
  {
    forall l ensures l in r <==> l in r2 || (l in r1 && l.price !in deep2) {
    }
    forall i | 0 <= i < |r1| ensures r1[i] in r && r1[i] !in r2 <==> r1[i].price !in deep2 {
      assert r1[i] in r1;
    }
  }

  // ----- a batch in a run of ticks

  lemma BatchOnBook(b: BookState, ts: seq<Tick>, side: Side, id: u32)
    requires IsBatch(id, Stream(b.symbol, side, ts)) && Settled(Descending(side), Prior(SideOf(b, side), id))
    ensures SideOf(RunTicks(b, ts), side)
      == SideState(SideAfter(Descending(side),
                             LevelDeltas(Prior(SideOf(b, side), id)) + DeltasOf(Stream(b.symbol, side, ts))), id)
  {
    SideSeparation(b, ts, side);
    BatchRun(Descending(side), SideOf(b, side), id, Stream(b.symbol, side, ts));
  }

  /** Snapshot replacement, however the batch is interleaved with ticks of the other
      side or of other symbols: it leaves exactly its own best 64 levels on its
      side if and only if the side did not have the batch's id already, or none of
      its levels survives the batch. */
  lemma SnapshotReplacesIff(b: BookState, ts: seq<Tick>, side: Side, id: u32, ranking: seq<Level>)
    requires IsBatch(id, Stream(b.symbol, side, ts)) && Settled(Descending(side), Prior(SideOf(b, side), id))
    requires IsRanking(Descending(side), Deep(DeltasOf(Stream(b.symbol, side, ts))), ranking)
    ensures var st := SideOf(b, side);
      SideOf(RunTicks(b, ts), side) == SideState(Top(ranking, MAX_LEVELS), id)
      <==>
      || st.snapshotId != id
      || forall i :: 0 <= i < |st.levels| ==>
           !Survives(Descending(side), st.levels[i], Deep(DeltasOf(Stream(b.symbol, side, ts))), ranking)
  {
    BatchOnBook(b, ts, side, id);
    MergedIff(Descending(side), Prior(SideOf(b, side), id), DeltasOf(Stream(b.symbol, side, ts)), ranking);
  }

  /** So a batch with a new id replaces the side, whatever the book held. */
  lemma SnapshotReplaces(b: BookState, ts: seq<Tick>, side: Side, id: u32, ranking: seq<Level>)
    requires IsBatch(id, Stream(b.symbol, side, ts)) && SideOf(b, side).snapshotId != id
    requires IsRanking(Descending(side), Deep(DeltasOf(Stream(b.symbol, side, ts))), ranking)
    ensures SideOf(RunTicks(b, ts), side) == SideState(Top(ranking, MAX_LEVELS), id)
  {
    SnapshotReplacesIff(b, ts, side, id, ranking);
  }

  /** A first snapshot with the id u32::MAX does not clear: the bid quoted before
      it stays in front of the snapshot's own. */
  lemma FirstSnapshotMerges(symbol: Symbol, exchange: Exchange)
    ensures var b := NewBook(symbol, exchange);
      RunTicks(b, [BidTick(b, 100, 1, false, 0), BidTick(b, 90, 1, true, 0xFFFF_FFFF)]).bids.levels
        == [Level(100, 1), Level(90, 1)]
  {
    var b := NewBook(symbol, exchange);
    var t1, t2 := BidTick(b, 100, 1, false, 0), BidTick(b, 90, 1, true, 0xFFFF_FFFF);
    FirstBid(symbol, exchange, 100);
    RunAppended(b, [], t1);
    RunAppended(b, [t1], t2);
    assert [] + [t1] == [t1] && [t1] + [t2] == [t1, t2];
    UpdateOnSide(RunTicks(b, [t1]), t2, Bid);
    assert Settled(true, [Level(100, 1)] + [Level(90, 1)]);
    AppendLast(true, [Level(100, 1)], Level(90, 1));
  }

  // ----- the order of a batch

  predicate DistinctPrices(ds: seq<Delta>) {
    forall i, j :: 0 <= i < j < |ds| ==> ds[i].price != ds[j].price
  }

  lemma {:induction false} DeepOfDistinct(ds: seq<Delta>)
    requires DistinctPrices(ds) && NoZeros(ds)
    ensures forall p, q :: p in Deep(ds) && Deep(ds)[p] == q <==> Delta(p, q) in ds
  {
    if ds != [] {
      var n := |ds| - 1;
      var prefix, d := ds[..n], ds[n];
      DeepOfDistinct(prefix);
      assert ds == prefix + [d];
      forall x | x in prefix ensures x.price != d.price {
        var i :| 0 <= i < n && prefix[i] == x;
      }
    }
  }

  lemma DeepPermuted(ds1: seq<Delta>, ds2: seq<Delta>)
    requires DistinctPrices(ds1) && multiset(ds1) == multiset(ds2)
    requires NoZeros(ds1) && NoZeros(ds2)
    ensures Deep(ds1) == Deep(ds2)
  {
    PermutedDistinct(ds1, ds2);
    DeepOfDistinct(ds1);
    DeepOfDistinct(ds2);
    SameElements(ds1, ds2);
    forall p ensures (p in Deep(ds1) <==> p in Deep(ds2)) && (p in Deep(ds1) ==> Deep(ds1)[p] == Deep(ds2)[p]) {
      if p in Deep(ds1) {
        assert Delta(p, Deep(ds1)[p]) in ds2;
      }
      if p in Deep(ds2) {
        assert Delta(p, Deep(ds2)[p]) in ds1;
      }
    }
  }

  lemma SameElements(ds1: seq<Delta>, ds2: seq<Delta>)
    requires multiset(ds1) == multiset(ds2)
    ensures forall d :: d in ds1 <==> d in ds2
  {
    forall d ensures d in ds1 <==> d in ds2 {
      assert d in multiset(ds1) <==> d in multiset(ds2);
    }
  }

  lemma PermutedDistinct(ds1: seq<Delta>, ds2: seq<Delta>)
    requires DistinctPrices(ds1) && multiset(ds1) == multiset(ds2)
    ensures DistinctPrices(ds2)
  {
    SameElements(ds1, ds2);
    forall i, j | 0 <= i < j < |ds2| ensures ds2[i].price != ds2[j].price {
      if ds2[i] == ds2[j] {
        TwiceThere(ds2, i, j);
        OnceThere(ds1, ds2[i]);
      } else {
        assert ds2[i] in ds1 && ds2[j] in ds1;
      }
    }
  }

  lemma TwiceThere(ds: seq<Delta>, i: nat, j: nat)
    requires i < j < |ds| && ds[i] == ds[j]
    ensures multiset(ds)[ds[i]] >= 2
  {
    assert ds == ds[..j] + [ds[j]] + ds[j + 1..];
    assert ds[i] in ds[..j];
    assert multiset(ds) == multiset(ds[..j]) + multiset([ds[j]]) + multiset(ds[j + 1..]);
  }

  lemma OnceThere(ds: seq<Delta>, d: Delta)
    requires DistinctPrices(ds)
    ensures multiset(ds)[d] <= 1
  {
    if d in ds {
      var i :| 0 <= i < |ds| && ds[i] == d;
      assert ds == ds[..i] + [d] + ds[i + 1..];
      assert multiset(ds) == multiset(ds[..i]) + multiset([d]) + multiset(ds[i + 1..]);
      assert d !in ds[..i] && d !in ds[i + 1..];
    }
  }

  /** Two runs of deltas without cancellations leave the same side if the unbounded
      book cannot tell them apart. */
  lemma SameDeepSameSide(descending: bool, ds1: seq<Delta>, ds2: seq<Delta>)
    requires NoZeros(ds1) && NoZeros(ds2) && Deep(ds1) == Deep(ds2)
    ensures SideAfter(descending, ds1) == SideAfter(descending, ds2)
  {
    var ranking := RankingExists(descending, Deep(ds1));
    BatchKept(descending, ds1, ranking);
    BatchKept(descending, ds2, ranking);
  }

  /** Two batches of the same id with the same ticks in any order leave the same
      side.  The books may differ: only what the batch is put on has to be the
      same, which is nothing where the id is new. */
  lemma SnapshotOrderIrrelevant(
      b1: BookState, ts1: seq<Tick>, b2: BookState, ts2: seq<Tick>, side: Side, id: u32)
    requires b1.symbol == b2.symbol
    requires IsBatch(id, Stream(b1.symbol, side, ts1)) && IsBatch(id, Stream(b2.symbol, side, ts2))
    requires Prior(SideOf(b1, side), id) == Prior(SideOf(b2, side), id)
    requires Settled(Descending(side), Prior(SideOf(b1, side), id))
    requires var ds1, ds2 := DeltasOf(Stream(b1.symbol, side, ts1)), DeltasOf(Stream(b2.symbol, side, ts2));
      DistinctPrices(ds1) && multiset(ds1) == multiset(ds2)
    ensures SideOf(RunTicks(b1, ts1), side) == SideOf(RunTicks(b2, ts2), side)
  {
    var ds1, ds2 := DeltasOf(Stream(b1.symbol, side, ts1)), DeltasOf(Stream(b2.symbol, side, ts2));
    var held := LevelDeltas(Prior(SideOf(b1, side), id));
    DeepPermuted(ds1, ds2);
    DeepMerged(held, ds1);
    DeepMerged(held, ds2);
    SameDeepSameSide(Descending(side), held + ds1, held + ds2);
    BatchOnBook(b1, ts1, side, id);
    BatchOnBook(b2, ts2, side, id);
  }

  // ----- every book reached by ticks is settled

  lemma DeltaSettled(descending: bool, ls: seq<Level>, price: u64, qty: u64)
    requires Settled(descending, ls)
    ensures Settled(descending, ListDelta(descending, ls, price, qty).0)
  {
    DeltaMeaning(descending, ls, price, qty);
    var (ls', r) := ListDelta(descending, ls, price, qty);
    forall i | 0 <= i < |ls'| ensures ls'[i].qty > 0 {
      assert ls'[i] in ls';
    }
  }

  lemma {:induction false} RunSettled(symbol: Symbol, exchange: Exchange, ts: seq<Tick>, side: Side)
    ensures Settled(Descending(side), SideOf(RunTicks(NewBook(symbol, exchange), ts), side).levels)
  {
    if ts != [] {
      var b, t := RunTicks(NewBook(symbol, exchange), ts[..|ts| - 1]), ts[|ts| - 1];
      RunSettled(symbol, exchange, ts[..|ts| - 1], side);
      TickOnSide(b, t, side);
      var st := SideOf(b, side);
      DeltaSettled(Descending(side), if Clears(st.snapshotId, t) then [] else st.levels, t.price, t.qty);
    }
  }
}
