/** The book's counters and stamps over runs: what the gap and reorder counters say
    about the sequence numbers of the effective ticks, when the book was last
    updated, and how many ticks went to the wrong book. */
module Sequences {
  import opened Ticks
  import opened Book

  /** The result code of a tick that changed a level. */
  const EFFECTIVE: set<DeltaResult> := {Updated, Inserted, Removed, InsertedEvicted}

  /** The sequence numbers of the ticks that changed a level, in order.  Ticks
      that ended in `NoOp` or `Discarded` are not tracked. */
  function EffectiveSeqs(b: BookState, ts: seq<Tick>): seq<int> {
    if ts == [] then []
    else
      var prefix, t := ts[..|ts| - 1], ts[|ts| - 1];
      var rest := EffectiveSeqs(b, prefix);
      if ApplyTick(RunTicks(b, prefix), t).1 in EFFECTIVE then rest + [t.sequence] else rest
  }

  /** Neighbours that skip at least one number. */
  function Jumps(es: seq<int>): nat {
    if |es| <= 1 then 0
    else Jumps(es[..|es| - 1]) + if es[|es| - 1] > es[|es| - 2] + 1 then 1 else 0
  }

  /** Neighbours that do not increase. */
  function Backsteps(es: seq<int>): nat {
    if |es| <= 1 then 0
    else Backsteps(es[..|es| - 1]) + if es[|es| - 1] <= es[|es| - 2] then 1 else 0
  }

  lemma JumpsAppended(es: seq<int>, e: int)
    requires es != []
    ensures Jumps(es + [e]) == Jumps(es) + if e > es[|es| - 1] + 1 then 1 else 0
    ensures Backsteps(es + [e]) == Backsteps(es) + if e <= es[|es| - 1] then 1 else 0
  {
    assert (es + [e])[..|es|] == es;
  }

  /** The tracking state of b is what the tracked numbers es left behind. */
  predicate Accounts(b: BookState, es: seq<int>) {
    && (b.initialized <==> es != [])
    && (es != [] ==> b.sequence == es[|es| - 1])
    && b.gaps == Jumps(es) % TWO_64
    && b.reorders == Backsteps(es) % TWO_64
  }

  lemma WordCounts(n: nat)
    ensures WrappingAdd(n % TWO_64, 1) == (n + 1) % TWO_64
  {
  }

  lemma SmallWord(n: nat)
    requires n < TWO_64
    ensures n % TWO_64 == n
  {
  }

  lemma TrackAccounts(b: BookState, es: seq<int>, e: u64)
    requires Accounts(b, es)
    ensures Accounts(TrackSequence(b, e), es + [e])
  {
    if es == [] {
      assert es + [e] == [e];
    } else {
      JumpsAppended(es, e);
      WordCounts(Jumps(es));
      WordCounts(Backsteps(es));
    }
  }

  /** After any run on a fresh book the two counters are, modulo 2^64, the numbers
      of jumps and of non-increases between neighbouring effective ticks. */
  lemma {:induction false} CountersMean(symbol: Symbol, exchange: Exchange, ts: seq<Tick>)
    ensures Accounts(RunTicks(NewBook(symbol, exchange), ts), EffectiveSeqs(NewBook(symbol, exchange), ts))
  {
    var b0 := NewBook(symbol, exchange);
    if ts != [] {
      var prefix, t := ts[..|ts| - 1], ts[|ts| - 1];
      CountersMean(symbol, exchange, prefix);
      TickAccounts(RunTicks(b0, prefix), EffectiveSeqs(b0, prefix), t);
    }
  }

  lemma TickAccounts(b: BookState, es: seq<int>, t: Tick)
    requires Accounts(b, es)
    ensures var (b', r) := ApplyTick(b, t);
      Accounts(b', if r in EFFECTIVE then es + [t.sequence] else es)
  {
    ApplyMeans(b, t);
    TrackAccounts(b, es, t.sequence);
  }

  /** With fewer than 2^64 ticks the counters are exact. */
  lemma CountersExact(symbol: Symbol, exchange: Exchange, ts: seq<Tick>)
    requires |ts| < TWO_64
    ensures var b, es := RunTicks(NewBook(symbol, exchange), ts), EffectiveSeqs(NewBook(symbol, exchange), ts);
      b.gaps == Jumps(es) && b.reorders == Backsteps(es)
  {
    CountersMean(symbol, exchange, ts);
    EffectiveBounded(NewBook(symbol, exchange), ts);
    var es := EffectiveSeqs(NewBook(symbol, exchange), ts);
    CountersBounded(es);
    SmallWord(Jumps(es));
    SmallWord(Backsteps(es));
  }

  lemma {:induction false} EffectiveBounded(b: BookState, ts: seq<Tick>)
    ensures |EffectiveSeqs(b, ts)| <= |ts|
  {
    if ts != [] {
      EffectiveBounded(b, ts[..|ts| - 1]);
    }
  }

  lemma {:induction false} CountersBounded(es: seq<int>)
    ensures Jumps(es) <= |es| && Backsteps(es) <= |es|
  {
    if |es| > 1 {
      CountersBounded(es[..|es| - 1]);
    }
  }

  predicate Consecutive(es: seq<int>) {
    forall i :: 0 <= i < |es| - 1 ==> es[i + 1] == es[i] + 1
  }

  lemma ConsecutiveAppended(es: seq<int>)
    requires |es| > 1
    ensures Consecutive(es) <==> Consecutive(es[..|es| - 1]) && es[|es| - 1] == es[|es| - 2] + 1
  {
    var prefix, n := es[..|es| - 1], |es| - 2;
    if Consecutive(es) {
      assert es[n + 1] == es[n] + 1;
      forall i | 0 <= i < |prefix| - 1 ensures prefix[i + 1] == prefix[i] + 1 {
        assert es[i + 1] == es[i] + 1;
      }
    }
    if Consecutive(prefix) && es[n + 1] == es[n] + 1 {
      forall i | 0 <= i < |es| - 1 ensures es[i + 1] == es[i] + 1 {
        if i < |prefix| - 1 {
          assert prefix[i + 1] == prefix[i] + 1;
        }
      }
    }
  }

  /** Both counts are zero exactly on consecutive numbers. */
  lemma {:induction false} CleanIffConsecutive(es: seq<int>)
    ensures Jumps(es) == 0 && Backsteps(es) == 0 <==> Consecutive(es)
  {
    if |es| > 1 {
      CleanIffConsecutive(es[..|es| - 1]);
      ConsecutiveAppended(es);
    }
  }

  /** Without reorders, the numbers missing between the first and the last
      effective tick are at least as many as the gaps, and none are missing
      exactly when there is no gap. */
  lemma {:induction false} GapsBoundMissing(es: seq<int>)
    requires es != [] && Backsteps(es) == 0
    ensures BoundsMissing(es, Jumps(es))
  {
    if |es| > 1 {
      GapsBoundMissing(es[..|es| - 1]);
    }
  }

  lemma CountsTell(es: seq<int>)
    ensures Jumps(es) == 0 && Backsteps(es) == 0 <==> Consecutive(es)
    ensures Backsteps(es) == 0 && es != [] ==> BoundsMissing(es, Jumps(es))
  {
    CleanIffConsecutive(es);
    if es != [] && Backsteps(es) == 0 {
      GapsBoundMissing(es);
    }
  }

  /** At least `gaps` numbers are missing between the first and the last of es, and
      none exactly if `gaps` is zero. */
  predicate BoundsMissing(es: seq<int>, gaps: nat)
    requires es != []
  {
    var missing := es[|es| - 1] - es[0] + 1 - |es|;
    missing >= gaps && (missing == 0 <==> gaps == 0)
  }

  /** What the two counters tell an operator after fewer than 2^64 ticks on a fresh
      book: both are zero exactly when the effective ticks were numbered
      consecutively, and while no reorder shows, the gaps bound from below how
      many numbers are missing and are zero exactly when none is. */
  lemma FeedHealth(symbol: Symbol, exchange: Exchange, ts: seq<Tick>)
    requires |ts| < TWO_64
    ensures var b, es := RunTicks(NewBook(symbol, exchange), ts), EffectiveSeqs(NewBook(symbol, exchange), ts);
      && (b.gaps == 0 && b.reorders == 0 <==> Consecutive(es))
      && (b.reorders == 0 && es != [] ==> BoundsMissing(es, b.gaps))
  {
    CountersExact(symbol, exchange, ts);
    CountsTell(EffectiveSeqs(NewBook(symbol, exchange), ts));
  }

  // ----- the last update

  /** When the last tick that changed a level was received; 0 if there was none. */
  function LastReceived(b: BookState, ts: seq<Tick>): u64 {
    if ts == [] then 0
    else
      var prefix, t := ts[..|ts| - 1], ts[|ts| - 1];
      if ApplyTick(RunTicks(b, prefix), t).1 in EFFECTIVE then t.tsRecv else LastReceived(b, prefix)
  }

  lemma {:induction false} LastUpdateMeans(symbol: Symbol, exchange: Exchange, ts: seq<Tick>)
    ensures var b := NewBook(symbol, exchange);
      RunTicks(b, ts).lastUpdate == LastReceived(b, ts)
  {
    if ts != [] {
      LastUpdateMeans(symbol, exchange, ts[..|ts| - 1]);
      ApplyMeans(RunTicks(NewBook(symbol, exchange), ts[..|ts| - 1]), ts[|ts| - 1]);
    }
  }

  /** A book is stale exactly when now is more than the threshold after the receipt
      of the last tick that changed a level, or after 0 if none did. */
  lemma StaleMeans(symbol: Symbol, exchange: Exchange, ts: seq<Tick>, now: u64, threshold: u64)
    ensures var b := NewBook(symbol, exchange);
      IsStale(RunTicks(b, ts), now, threshold) <==> now > LastReceived(b, ts) + threshold
  {
    LastUpdateMeans(symbol, exchange, ts);
  }

  // ----- ticks of other symbols

  function WrongSymbols(symbol: Symbol, ts: seq<Tick>): nat {
    if ts == [] then 0
    else WrongSymbols(symbol, ts[..|ts| - 1]) + if ts[|ts| - 1].symbol != symbol then 1 else 0
  }

  /** Every tick of another symbol is counted, and no other. */
  lemma {:induction false} MismatchesMean(symbol: Symbol, exchange: Exchange, ts: seq<Tick>)
    ensures var b := RunTicks(NewBook(symbol, exchange), ts);
      b.symbolMismatches == WrongSymbols(symbol, ts) % 0x1_0000_0000_0000_0000 && b.symbol == symbol
  {
    if ts != [] {
      var prefix := ts[..|ts| - 1];
      MismatchesMean(symbol, exchange, prefix);
      ApplyMeans(RunTicks(NewBook(symbol, exchange), prefix), ts[|ts| - 1]);
      WordCounts(WrongSymbols(symbol, prefix));
    }
  }
}
