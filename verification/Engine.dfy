/** The engine: it takes ticks out of the ring and applies them to its book. */
module Engines {
  import opened Ticks
  import opened Bits
    import opened Book
  import opened OrderBooks
  import opened Disruptors

  /** What repeated `run_one` calls do to a book while the queue lasts. */
  function RunOnes(b: BookState, q: seq<Tick>): BookState
    decreases |q|
  {
    if q == [] then b else RunOnes(ApplyTick(b, q[0]).0, q[1..])
  }

  lemma RunSingle(b: BookState, t: Tick)
    ensures RunTicks(b, [t]) == ApplyTick(b, t).0
  {
    RunAppended(b, [], t);
    assert [] + [t] == [t];
  }

  /** A batch leaves the book that repeated `run_one` calls leave. */
  lemma {:induction false} BatchIsRepeatedOnes(b: BookState, q: seq<Tick>)
    ensures RunOnes(b, q) == RunTicks(b, q)
    decreases |q|
  {
    if q != [] {
      BatchIsRepeatedOnes(ApplyTick(b, q[0]).0, q[1..]);
      assert q == [q[0]] + q[1..];
      RunSingle(b, q[0]);
      RunConcat(b, [q[0]], q[1..]);
    }
  }

  /** The u32 word that holds a count. */
  function Word32(n: nat): u32 {
    n % TWO_32
  }

  lemma SmallCount(n: nat)
    ensures n < TWO_32 ==> Word32(n) == n
  {
  }

  method Increment(n: u32, ghost counted: nat) returns (next: u32)
    requires n == Word32(counted)
    ensures next == Word32(counted + 1)
  {
    ReducedSum(counted, 1, TWO_32);
    next := (n + 1) % TWO_32;
  }

  lemma CountedTick(n: nat)
    ensures n < TWO_64 ==> Word64(n) == n
    ensures WrappingAdd(Word64(n), 1) == Word64(n + 1)
  {
    ReducedSum(n, 1, TWO_64);
  }

  class BookEngine {
    const book: OrderBook
    const ring: SpscDisruptor
    var ticks: u64

    ghost function Repr(): set<object> {
      {this} + book.Repr() + ring.Repr()
    }

    ghost predicate Valid()
      reads Repr()
    {
      && this !in book.Repr() && this !in ring.Repr() && book.Repr() !! ring.Repr()
      && book.Valid() && ring.Valid()
    }

    constructor (book: OrderBook, ring: SpscDisruptor)
      requires book.Valid() && ring.Valid() && book.Repr() !! ring.Repr()
      ensures Valid() && this.book == book && this.ring == ring && ticks == 0
    {
      this.book, this.ring := book, ring;
      ticks := 0;
    }

    /** Take one tick, if there is one, and apply it. */
    method RunOne() returns (r: Option<DeltaResult>)
      requires Valid()
      modifies Repr()
      ensures Valid()
      ensures var q, b := old(ring.Contents()), old(book.State());
        if q == [] then
          r == None && ring.Contents() == [] && book.State() == b && ticks == old(ticks)
        else
          && (book.State(), r) == (ApplyTick(b, q[0]).0, Some(ApplyTick(b, q[0]).1))
          && ring.Contents() == q[1..] && ticks == WrappingAdd(old(ticks), 1)
    {
      var t := ring.TryConsume();
      if t.None? {
        return None;
      }
      var result := book.Apply(t.value);
      ticks := WrappingAdd(ticks, 1);
      return Some(result);
    }

    /** Applying all the ticks in the ring one by one leads to this book. */
    ghost predicate LeadsTo(goal: BookState)
      requires Valid()
      reads Repr()
    {
      RunOnes(book.State(), ring.Contents()) == goal
    }

    lemma Leads()
      requires Valid()
      ensures LeadsTo(RunTicks(book.State(), ring.Contents()))
    {
      BatchIsRepeatedOnes(book.State(), ring.Contents());
    }

    lemma Arrived(goal: BookState)
      requires Valid() && LeadsTo(goal) && ring.Contents() == []
      ensures book.State() == goal
    {
    }

    /** One turn of the draining loop: it takes one tick and leaves the outcome of
        applying all remaining ones the same. */
    method ApplyNext(ghost goal: BookState) returns (some: bool)
      requires Valid() && LeadsTo(goal)
      modifies book.Repr(), ring.Repr()
      ensures Valid() && LeadsTo(goal)
      ensures some <==> old(ring.Contents()) != []
      ensures |ring.Contents()| == |old(ring.Contents())| - (if some then 1 else 0)
    {
      var t := ring.TryConsume();
      some := t.Some?;
      if some {
        var _ := book.Apply(t.value);
      }
    }

    /** One turn that also counts. */
    method CountTurn(ghost goal: BookState, n: u32, ghost counted: nat) returns (some: bool, next: u32)
      requires Valid() && LeadsTo(goal) && n == Word32(counted)
      modifies book.Repr(), ring.Repr()
      ensures Valid() && LeadsTo(goal)
      ensures some <==> old(ring.Contents()) != []
      ensures |ring.Contents()| == |old(ring.Contents())| - (if some then 1 else 0)
      ensures next == Word32(if some then counted + 1 else counted)
    {
      some := ApplyNext(goal);
      next := n;
      if some {
        next := Increment(n, counted);
      }
    }

    /** The draining loop: with a quiet producer it applies exactly the ticks the
        ring holds, in order, and counts them in a u32. */
    method Drain(ghost goal: BookState) returns (n: u32)
      requires Valid() && LeadsTo(goal)
      modifies book.Repr(), ring.Repr()
      ensures Valid() && ring.Contents() == [] && book.State() == goal
      ensures n == Word32(|old(ring.Contents())|)
    {
      ghost var total: nat, counted: nat := |ring.Contents()|, 0;
      n := 0;
      var some := true;
      while some
        invariant Valid() && LeadsTo(goal)
        invariant n == Word32(counted) && counted + |ring.Contents()| == total
        invariant !some ==> ring.Contents() == []
        decreases |ring.Contents()|, some
      {
        some, n := CountTurn(goal, n, counted);
        counted := if some then counted + 1 else counted;
      }
      Arrived(goal);
    }

    /** Drain the ring and count.  In a ring of fewer than 2^32 slots the returned
        count is exact, and `ticks` advances by it. */
    method RunBatch() returns (n: u32)
      requires Valid()
      modifies Repr()
      ensures Valid() && ring.Contents() == []
      ensures n == Word32(|old(ring.Contents())|)
      ensures ring.size < TWO_32 ==> n == |old(ring.Contents())|
      ensures book.State() == RunTicks(old(book.State()), old(ring.Contents()))
      ensures ticks == WrappingAdd(old(ticks), n)
    {
      SmallCount(|ring.Contents()|);
      Leads();
      n := Drain(RunTicks(book.State(), ring.Contents()));
      ticks := WrappingAdd(ticks, n);
    }

    /** One `run_one` call: it leaves the outcome of applying all remaining ticks
        the same, and counts its own. */
    method CountNext(ghost goal: BookState, ghost counted: nat) returns (some: bool)
      requires Valid() && LeadsTo(goal) && ticks == Word64(counted)
      modifies Repr()
      ensures Valid() && LeadsTo(goal)
      ensures some <==> old(ring.Contents()) != []
      ensures |ring.Contents()| == |old(ring.Contents())| - (if some then 1 else 0)
      ensures ticks == Word64(if some then counted + 1 else counted)
    {
      CountedTick(counted);
      var r := RunOne();
      some := r.Some?;
    }

    method CountRest(ghost goal: BookState, ghost counted: nat)
      requires Valid() && LeadsTo(goal) && ticks == Word64(counted)
      modifies Repr()
      ensures Valid() && ring.Contents() == [] && book.State() == goal
      ensures ticks == Word64(counted + |old(ring.Contents())|)
    {
      ghost var total: nat, now: nat := counted + |ring.Contents()|, counted;
      var some := true;
      while some
        invariant Valid() && LeadsTo(goal)
        invariant ticks == Word64(now) && now + |ring.Contents()| == total
        invariant !some ==> ring.Contents() == []
        decreases |ring.Contents()|, some
      {
        some := CountNext(goal, now);
        now := if some then now + 1 else now;
      }
      Arrived(goal);
    }

    /** Calling `run_one` until it finds nothing does what a batch does: the same
        book and an empty ring, and the same `ticks` as long as the batch's own
        count is exact. */
    method RunOneByOne()
      requires Valid()
      modifies Repr()
      ensures Valid() && ring.Contents() == []
      ensures book.State() == RunTicks(old(book.State()), old(ring.Contents()))
      ensures ticks == Word64(old(ticks) + |old(ring.Contents())|)
    {
      CountedTick(ticks);
      Leads();
      CountRest(RunTicks(book.State(), ring.Contents()), ticks);
    }
  }
}
