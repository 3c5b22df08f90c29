/** What every schedule of the ring guarantees: no data race, exact refusals, a
    bounded FIFO queue, and counters that mean what they say. */
module RingTheorems {
  import opened Ticks
  import opened Bits
  import opened RingMachine
  import opened RingSafety

  /** The queue a ring state stands for: the accepted ticks not yet consumed. */
  function Contents(s: State): seq<Tick>
    requires s.Run? && |s.consumed| <= |s.accepted|
  {
    s.accepted[|s.consumed|..]
  }

  predicate ProducerOwnsSlot(s: State)
    requires s.Run?
  {
    s.ppc.PPassed? || s.ppc.PWrote?
  }

  predicate ConsumerOwnsSlot(s: State)
    requires s.Run?
  {
    s.cpc.CPassed? || s.cpc.CRead?
  }

  /** The producer's slot is that of the next cursor to publish, and the last read
      of its cell happens before. */
  predicate ProducerSafe(cfg: Config, s: State)
    requires s.Run? && ProducerOwnsSlot(s)
  {
    var i := cfg.Index(s.ppc.cursor);
    && s.ppc.cursor == cfg.Word(|s.accepted|)
    && i < |s.slots|
    && s.slots[i].lastRead <= s.pview.c
  }

  /** The consumer's slot is that of the next cursor to consume, the last write of
      its cell happens before, and the cell holds the tick accepted for that cursor. */
  predicate ConsumerSafe(cfg: Config, s: State)
    requires s.Run? && ConsumerOwnsSlot(s)
  {
    var i := cfg.Index(s.cpc.cursor);
    && s.cpc.cursor == cfg.Word(|s.consumed|)
    && i < |s.slots|
    && s.slots[i].lastWrite <= s.cview.p
    && |s.consumed| < |s.accepted|
    && s.slots[i].tick == s.accepted[|s.consumed|]
  }

  lemma OwnersSafe(cfg: Config, s: State)
    requires Proper(cfg) && Inv(cfg, s)
    ensures ProducerOwnsSlot(s) ==> ProducerSafe(cfg, s)
    ensures ConsumerOwnsSlot(s) ==> ConsumerSafe(cfg, s)
  {
    WordSlot(cfg, |s.accepted|);
    WordSlot(cfg, |s.consumed|);
    assert SlotOf(cfg, s, |s.consumed|);
    if ProducerOwnsSlot(s) {
      assert SlotOf(cfg, s, |s.accepted|);
    }
  }

  lemma OwnersApart(cfg: Config, s: State)
    requires Proper(cfg) && Inv(cfg, s) && ProducerOwnsSlot(s) && ConsumerOwnsSlot(s)
    ensures cfg.Index(s.ppc.cursor) != cfg.Index(s.cpc.cursor)
  {
    WordSlot(cfg, |s.accepted|);
    WordSlot(cfg, |s.consumed|);
    ModInjective(|s.consumed|, |s.accepted|, cfg.size);
  }

  /** Weak-memory safety: no schedule reaches undefined behaviour, every cell
      access is ordered after the other thread's accesses to that cell, a read
      returns the tick that was published for its cursor, and the two threads
      never hold the same slot. */
  lemma Safety(cfg: Config, blank: Tick, acts: seq<Action>)
    requires Proper(cfg)
    ensures var s := Exec(cfg, blank, acts);
      && s.Run?
      && (ProducerOwnsSlot(s) ==> ProducerSafe(cfg, s))
      && (ConsumerOwnsSlot(s) ==> ConsumerSafe(cfg, s))
      && (ProducerOwnsSlot(s) && ConsumerOwnsSlot(s) ==> cfg.Index(s.ppc.cursor) != cfg.Index(s.cpc.cursor))
  {
    Reachable(cfg, blank, acts);
    var s := Exec(cfg, blank, acts);
    OwnersSafe(cfg, s);
    if ProducerOwnsSlot(s) && ConsumerOwnsSlot(s) {
      OwnersApart(cfg, s);
    }
  }

  /** The outcome of the producer's load of entry j. */
  ghost predicate PublishDecided(cfg: Config, s: State, j: nat)
    requires s.Run? && |s.slots| == cfg.size && |s.consumed| <= |s.accepted|
  {
    s.ppc.PGot? && CanLoad(s.slots[cfg.Index(s.ppc.cursor)].hist, j, s.pview) ==>
      var s' := Do(cfg, s, PLoad(j));
      && s'.Run?
      && s'.ppc ==
           if j == |s.slots[cfg.Index(s.ppc.cursor)].hist| - 1 && |Contents(s)| < cfg.size
           then PPassed(s.ppc.cursor, s.ppc.tick) else PRefused(s.ppc.tick)
  }

  lemma PublishLoaded(cfg: Config, s: State, j: nat)
    requires Proper(cfg) && Inv(cfg, s)
    ensures PublishDecided(cfg, s, j)
  {
    WordSlot(cfg, |s.accepted|);
    if s.ppc.PGot? && CanLoad(s.slots[cfg.Index(s.ppc.cursor)].hist, j, s.pview) {
      ProducerLoad(cfg, s, j);
    }
  }

  /** A publish passes its check exactly when its load returned the newest entry
      and fewer than N ticks were outstanding at that load.  Under sequential
      consistency a load always returns the newest entry, so there a refusal
      means exactly "full"; a stale load can only cause a spurious refusal. */
  lemma PublishOutcome(cfg: Config, blank: Tick, acts: seq<Action>, j: nat)
    requires Proper(cfg)
    ensures var s := Exec(cfg, blank, acts);
      && s.Run? && |s.consumed| <= |s.accepted| && |s.slots| == cfg.size
      && PublishDecided(cfg, s, j)
  {
    Reachable(cfg, blank, acts);
    PublishLoaded(cfg, Exec(cfg, blank, acts), j);
  }

  /** The outcome of the consumer's load of entry j. */
  ghost predicate ConsumeDecided(cfg: Config, s: State, j: nat)
    requires s.Run? && |s.slots| == cfg.size && |s.consumed| <= |s.accepted|
  {
    s.cpc.CGot? && CanLoad(s.slots[cfg.Index(s.cpc.cursor)].hist, j, s.cview) ==>
      var s' := Do(cfg, s, CLoad(j));
      var passes := j == |s.slots[cfg.Index(s.cpc.cursor)].hist| - 1 && |Contents(s)| > 0;
      && s'.Run?
      && s'.cpc == (if passes then CPassed(s.cpc.cursor) else CIdle)
      && s'.empties == s.empties + (if passes then 0 else 1)
  }

  lemma ConsumeLoaded(cfg: Config, s: State, j: nat)
    requires Proper(cfg) && Inv(cfg, s)
    ensures ConsumeDecided(cfg, s, j)
  {
    WordSlot(cfg, |s.consumed|);
    WordPlus(cfg, |s.consumed|, 1);
    if s.cpc.CGot? && CanLoad(s.slots[cfg.Index(s.cpc.cursor)].hist, j, s.cview) {
      ConsumerLoad(cfg, s, j);
    }
  }

  /** A consume passes its check exactly when its load returned the newest entry
      and some tick was outstanding at that load. */
  lemma ConsumeOutcome(cfg: Config, blank: Tick, acts: seq<Action>, j: nat)
    requires Proper(cfg)
    ensures var s := Exec(cfg, blank, acts);
      && s.Run? && |s.consumed| <= |s.accepted| && |s.slots| == cfg.size
      && ConsumeDecided(cfg, s, j)
  {
    Reachable(cfg, blank, acts);
    ConsumeLoaded(cfg, Exec(cfg, blank, acts), j);
  }

  /** A bounded FIFO queue: the specification the ring refines. */
  ghost predicate QueueStep(capacity: nat, q: seq<Tick>, q': seq<Tick>, added: Option<Tick>, removed: Option<Tick>) {
    && |q| <= capacity && |q'| <= capacity
    && !(added.Some? && removed.Some?)
    && (added.Some? ==> q' == q + [added.value])
    && (removed.Some? ==> q == [removed.value] + q')
    && (added.None? && removed.None? ==> q' == q)
  }

  function Added(s: State, a: Action): Option<Tick>
    requires s.Run?
  {
    if a.PStoreSlot? && s.ppc.PWrote? then Some(s.ppc.tick) else None
  }

  function Taken(s: State, a: Action): Option<Tick>
    requires s.Run?
  {
    if a.CStoreSlot? && s.cpc.CRead? then Some(s.cpc.tick) else None
  }

  /** Every micro-step of every schedule is a step of the FIFO queue of capacity
      N: the publishing store enqueues the caller's tick, the releasing store
      dequeues the tick about to be returned, and no other step shows. */
  lemma RefinesQueue(cfg: Config, blank: Tick, acts: seq<Action>, a: Action)
    requires Proper(cfg)
    ensures var s, s' := Exec(cfg, blank, acts), Exec(cfg, blank, acts + [a]);
      && s.Run? && s'.Run?
      && |s.consumed| <= |s.accepted| && |s'.consumed| <= |s'.accepted|
      && QueueStep(cfg.size, Contents(s), Contents(s'), Added(s, a), Taken(s, a))
  {
    ExecAppended(cfg, blank, acts, a);
    Reachable(cfg, blank, acts);
    Reachable(cfg, blank, acts + [a]);
    var s := Exec(cfg, blank, acts);
    LogStep(cfg, s, a);
    ContentsStep(s, Do(cfg, s, a), Added(s, a), Taken(s, a));
  }

  lemma ExecAppended(cfg: Config, blank: Tick, acts: seq<Action>, a: Action)
    ensures Exec(cfg, blank, acts + [a]) == Do(cfg, Exec(cfg, blank, acts), a)
  {
    assert (acts + [a])[..|acts|] == acts;
  }

  lemma ContentsStep(s: State, s': State, added: Option<Tick>, taken: Option<Tick>)
    requires s.Run? && s'.Run? && |s.consumed| <= |s.accepted|
    requires added.None? || taken.None?
    requires s'.accepted == s.accepted + (if added.Some? then [added.value] else [])
    requires s'.consumed == s.consumed + (if taken.Some? then [taken.value] else [])
    requires taken.Some? ==> |s.consumed| < |s.accepted| && taken.value == s.accepted[|s.consumed|]
    ensures added.Some? ==> Contents(s') == Contents(s) + [added.value]
    ensures taken.Some? ==> Contents(s) == [taken.value] + Contents(s')
    ensures added.None? && taken.None? ==> Contents(s') == Contents(s)
  {
  }

  /** Which steps extend which size, and that a released tick is the oldest one. */
  lemma LogStep(cfg: Config, s: State, a: Action)
    requires Inv(cfg, s) && Do(cfg, s, a).Run?
    ensures var s' := Do(cfg, s, a);
      && s'.accepted == s.accepted + (if Added(s, a).Some? then [Added(s, a).value] else [])
      && s'.consumed == s.consumed + (if Taken(s, a).Some? then [Taken(s, a).value] else [])
      && (Taken(s, a).Some? ==> |s.consumed| < |s.accepted| && Taken(s, a).value == s.accepted[|s.consumed|])
  {
  }

  /** What callers see: the ticks of the publish calls that returned true, then
      the one whose call has published but not yet returned, are the accepted
      sequence; the ticks returned by consume calls are a prefix of it, at most
      one behind the released ones; `dropped` counts the calls that returned
      false, modulo the word; every started call is finished or in progress. */
  lemma CallersView(cfg: Config, blank: Tick, acts: seq<Action>)
    requires Proper(cfg)
    ensures var s := Exec(cfg, blank, acts);
      && s.Run?
      && s.accepted == Successes(s.outcomes) + (if s.ppc.PStored? then [s.ppc.tick] else [])
      && s.consumed == s.delivered + (if s.cpc.CStored? then [s.cpc.tick] else [])
      && s.delivered <= s.consumed <= s.accepted
      && |s.accepted| <= |s.consumed| + cfg.size
      && s.dropped == cfg.Word(Refusals(s.outcomes))
      && |Successes(s.outcomes)| + Refusals(s.outcomes) == |s.outcomes|
      && s.started == |s.outcomes| + (if s.ppc.PIdle? then 0 else 1)
  {
    Reachable(cfg, blank, acts);
    OutcomesSplit(Exec(cfg, blank, acts).outcomes);
  }

  lemma {:induction false} OutcomesSplit(outcomes: seq<Outcome>)
    ensures |Successes(outcomes)| + Refusals(outcomes) == |outcomes|
  {
    if outcomes != [] {
      OutcomesSplit(outcomes[..|outcomes| - 1]);
    }
  }

  /** At any instant the difference of the unbounded cursors lies in [-1, N + 1],
      and it is the outstanding count when neither thread is between its slot
      store and its cursor store. */
  lemma CursorGap(cfg: Config, blank: Tick, acts: seq<Action>)
    requires Proper(cfg) && !cfg.wrapping
    ensures var s := Exec(cfg, blank, acts);
      && s.Run? && |s.consumed| <= |s.accepted|
      && -1 <= s.pcur - s.ccur <= cfg.size + 1
      && s.pcur - s.ccur == |Contents(s)| - (if s.ppc.PStored? then 1 else 0) + (if s.cpc.CStored? then 1 else 0)
  {
    Reachable(cfg, blank, acts);
  }
}
