/** The ring as the code stores it, for calls that run to completion one at a
    time: two arrays, two wrapping cursors and a drop counter, proved to be a
    bounded FIFO queue.  Interleavings of calls are the subject of `RingMachine`. */
module Disruptors {
  import opened Ticks
  import opened Bits
  import opened RingMachine
  import opened RingSafety

  /** The slot of cursor n, in a ring that has accepted `published` so far. */
  predicate SlotHolds(size: Positive, words: seq<u64>, cells: seq<Tick>, published: seq<Tick>, n: nat)
    requires |words| == |cells| == size
  {
    if n < |published| then
      words[n % size] == Word64(n + 1) && cells[n % size] == published[n]
    else
      words[n % size] == Word64(n)
  }

  /** The arrays hold the ticks that were accepted and not yet taken. */
  ghost predicate Holds(size: Positive, words: seq<u64>, cells: seq<Tick>, published: seq<Tick>, taken: nat) {
    && Proper(Config(size, true))
    && |words| == |cells| == size
    && taken <= |published| <= taken + size
    && forall n :: taken <= n < taken + size ==> SlotHolds(size, words, cells, published, n)
  }

  lemma FreshHolds(size: Positive, words: seq<u64>, cells: seq<Tick>)
    requires Proper(Config(size, true)) && |words| == |cells| == size
    requires forall k :: 0 <= k < size ==> words[k] == k
    ensures Holds(size, words, cells, [], 0)
  {
    SizeBounds(Config(size, true));
    forall n | 0 <= n < size ensures SlotHolds(size, words, cells, [], n) {
      ModUnique(n, size, 0, n);
    }
  }

  /** The producer's word tells whether there is room. */
  lemma PublishWord(size: Positive, words: seq<u64>, cells: seq<Tick>, published: seq<Tick>, taken: nat)
    requires Holds(size, words, cells, published, taken)
    ensures words[|published| % size] == Word64(|published|) <==> |published| < taken + size
  {
    SizeBounds(Config(size, true));
    if |published| == taken + size {
      ModPlusMultiple(taken, size, 1);
      assert SlotHolds(size, words, cells, published, taken);
      ReducedDistinct(taken + 1, |published|);
    } else {
      assert SlotHolds(size, words, cells, published, |published|);
    }
  }

  lemma HoldsPublished(size: Positive, words: seq<u64>, cells: seq<Tick>, published: seq<Tick>, taken: nat, t: Tick)
    requires Holds(size, words, cells, published, taken) && |published| < taken + size
    ensures var n := |published|;
      var i := n % size;
      Holds(size, words[i := Word64(n + 1)], cells[i := t], published + [t], taken)
  {
    var n := |published|;
    var i := n % size;
    var words', cells' := words[i := Word64(n + 1)], cells[i := t];
    forall m | taken <= m < taken + size ensures SlotHolds(size, words', cells', published + [t], m) {
      if m != n {
        ModInjective(if m < n then m else n, if m < n then n else m, size);
        assert SlotHolds(size, words, cells, published, m);
      }
    }
  }

  /** The consumer's word tells whether there is a tick, and its cell holds it. */
  lemma ConsumeWord(size: Positive, words: seq<u64>, cells: seq<Tick>, published: seq<Tick>, taken: nat)
    requires Holds(size, words, cells, published, taken)
    ensures words[taken % size] == Word64(taken + 1) <==> taken < |published|
    ensures taken < |published| ==> cells[taken % size] == published[taken]
  {
    assert SlotHolds(size, words, cells, published, taken);
    ReducedDistinct(taken, taken + 1);
  }

  lemma HoldsConsumed(size: Positive, words: seq<u64>, cells: seq<Tick>, published: seq<Tick>, taken: nat)
    requires Holds(size, words, cells, published, taken) && taken < |published|
    ensures Holds(size, words[taken % size := Word64(taken + size)], cells, published, taken + 1)
  {
    var i := taken % size;
    var words' := words[i := Word64(taken + size)];
    forall m | taken + 1 <= m < taken + 1 + size ensures SlotHolds(size, words', cells, published, m) {
      if m < taken + size {
        ModInjective(taken, m, size);
        assert SlotHolds(size, words, cells, published, m);
      } else {
        ModPlusMultiple(taken, size, 1);
      }
    }
  }

  lemma FirstOfRest(published: seq<Tick>, n: nat)
    requires n < |published|
    ensures published[n..] == [published[n]] + published[n + 1..]
  {
  }

  class SpscDisruptor {
    const size: Positive
    const sequence: array<u64>
    const cells: array<Tick>
    var producer: u64
    var consumer: u64
    var dropped: u64

    /** Every tick accepted since construction, how many of them were taken, and
        how many more were refused. */
    ghost var published: seq<Tick>
    ghost var taken: nat
    ghost var refused: nat

    ghost function Repr(): set<object> {
      {this, sequence, cells}
    }

    ghost predicate Valid()
      reads Repr()
    {
      && Holds(size, sequence[..], cells[..], published, taken)
      && producer == Word64(|published|)
      && consumer == Word64(taken)
      && dropped == Word64(refused)
    }

    /** The ticks in the ring, oldest first. */
    ghost function Contents(): (q: seq<Tick>)
      requires Valid()
      reads Repr()
      ensures |q| <= size
    {
      published[taken..]
    }

    /** Slot i starts out waiting for cursor i.  From two slots on this is an empty
        ring; the one slot that the size check also admits is not protected. */
    constructor (size: Positive, blank: Tick)
      requires Config(size, true).Valid()
      ensures fresh(Repr()) && this.size == size
      ensures sequence.Length == cells.Length == size
      ensures forall k :: 0 <= k < size ==> sequence[k] == k && cells[k] == blank
      ensures producer == consumer == dropped == 0 && refused == 0
      ensures size >= 2 ==> Valid() && Contents() == []
    {
      this.size := size;
      sequence := new u64[size];
      cells := new Tick[size](_ => blank);
      producer, consumer, dropped := 0, 0, 0;
      published, taken, refused := [], 0, 0;
      new;
      SizeBounds(Config(size, true));
      var i := 0;
      while i < size
        invariant i <= size
        invariant forall k :: 0 <= k < i ==> sequence[k] == k
        modifies sequence
      {
        sequence[i] := i;
        i := i + 1;
      }
      if size >= 2 {
        FreshHolds(size, sequence[..], cells[..]);
      }
    }

    /** `cursor & RING_MASK`, an index within the buffer. */
    method SlotIndex(cursor: u64, ghost n: nat) returns (i: nat)
      requires Valid() && cursor == Word64(n)
      ensures i == n % size
    {
      i := And(cursor, size - 1);
      MaskIsIndex(Config(size, true), cursor);
      WordSlot(Config(size, true), n);
    }

    /** Accepts exactly when the ring is not full; a refusal is counted. */
    method TryPublish(t: Tick) returns (ok: bool)
      requires Valid()
      modifies Repr()
      ensures Valid()
      ensures ok <==> |old(Contents())| < size
      ensures Contents() == if ok then old(Contents()) + [t] else old(Contents())
      ensures refused == old(refused) + if ok then 0 else 1
    {
      ghost var n := |published|;
      var prod := producer;
      var i := SlotIndex(prod, n);
      PublishWord(size, sequence[..], cells[..], published, taken);
      if sequence[i] != prod {
        NextWord(refused);
        dropped := WrappingAdd(dropped, 1);
        refused := refused + 1;
        return false;
      }
      HoldsPublished(size, sequence[..], cells[..], published, taken, t);
      NextWord(n);
      ghost var words, ticks := sequence[..], cells[..];
      cells[i] := t;
      sequence[i] := WrappingAdd(prod, 1);
      producer := WrappingAdd(prod, 1);
      published := published + [t];
      assert sequence[..] == words[i := Word64(n + 1)];
      assert cells[..] == ticks[i := t];
      return true;
    }

    /** The consumer's slot i holds the oldest tick: read it, hand the slot back to
        the producer one lap ahead, and advance. */
    method Release(cons: u64, i: nat) returns (t: Tick)
      requires Valid() && Contents() != [] && cons == consumer && i == taken % size
      modifies this`consumer, this`taken, sequence
      ensures Valid() && old(Contents()) == [t] + Contents()
    {
      ghost var n, words := taken, sequence[..];
      ConsumeWord(size, words, cells[..], published, n);
      HoldsConsumed(size, words, cells[..], published, n);
      NextWord(n);
      LaterWord(n, size);
      FirstOfRest(published, n);
      t := cells[i];
      sequence[i] := Word64(cons + size);
      consumer := WrappingAdd(cons, 1);
      taken := n + 1;
      assert sequence[..] == words[i := Word64(n + size)];
    }

    /** Returns the oldest tick, or nothing exactly when the ring is empty. */
    method TryConsume() returns (r: Option<Tick>)
      requires Valid()
      modifies Repr()
      ensures Valid() && refused == old(refused)
      ensures r == if old(Contents()) == [] then None else Some(old(Contents())[0])
      ensures Contents() == if old(Contents()) == [] then [] else old(Contents())[1..]
    {
      var cons := consumer;
      var i := SlotIndex(cons, taken);
      ConsumeWord(size, sequence[..], cells[..], published, taken);
      NextWord(taken);
      if sequence[i] != WrappingAdd(cons, 1) {
        return None;
      }
      var t := Release(cons, i);
      return Some(t);
    }

    /** Between calls the cursors' wrapping difference is the number of ticks held. */
    method Pending() returns (n: u64)
      requires Valid()
      ensures n == |Contents()|
    {
      SizeBounds(Config(size, true));
      n := (producer - consumer) % TWO_64;
    }

    /** How many publish calls were refused since construction, as a u64. */
    method DroppedCount() returns (n: u64)
      requires Valid()
      ensures n == Word64(refused)
    {
      n := dropped;
    }
  }
}
