/** The invariant of the ring machine and what it implies for every schedule. */
module RingSafety {
  import opened Ticks
  import opened Bits
  import opened RingMachine

  /** A slot that holds the unread tick of cursor n. */
  predicate Full(cfg: Config, s: State, n: nat)
    requires s.Run? && |s.slots| == cfg.size && n < |s.accepted|
  {
    var slot := s.slots[n % cfg.size];
    var k := |slot.hist|;
    && k >= 2
    && slot.tick == s.accepted[n]
    && slot.hist[k - 1].val == cfg.Word(n + 1)
    && slot.hist[k - 1].at.Leq(s.pview)
    && slot.lastWrite <= slot.hist[k - 1].at.p
    && slot.hist[k - 2].val == cfg.Word(n)
    && slot.hist[k - 2].at.Leq(s.cview)
  }

  /** A slot that waits for the tick of cursor n. */
  predicate Free(cfg: Config, s: State, n: nat)
    requires s.Run? && |s.slots| == cfg.size
  {
    var slot := s.slots[n % cfg.size];
    var k := |slot.hist|;
    && k >= 1
    && slot.hist[k - 1].val == cfg.Word(n)
    && slot.hist[k - 1].at.Leq(s.cview)
    && slot.lastRead <= slot.hist[k - 1].at.c
    && (k >= 2 ==>
          && n >= cfg.size
          && slot.hist[k - 2].val == cfg.Word(n - cfg.size + 1)
          && slot.hist[k - 2].at.Leq(s.pview))
  }

  /** The cursors from C to C + N - 1 cover every slot once: those below P are
      full, the others free. */
  predicate SlotOf(cfg: Config, s: State, n: nat)
    requires s.Run? && |s.slots| == cfg.size
  {
    if n < |s.accepted| then Full(cfg, s, n) else Free(cfg, s, n)
  }

  predicate ProducerInv(cfg: Config, s: State)
    requires s.Run? && |s.slots| == cfg.size
  {
    var P := |s.accepted|;
    match s.ppc
    case PIdle | PRefused(_) => s.pcur == cfg.Word(P)
    case PGot(cursor, _) => s.pcur == cursor == cfg.Word(P)
    case PPassed(cursor, _) => s.pcur == cursor == cfg.Word(P) && OwnsFree(cfg, s)
    case PWrote(cursor, t) =>
      s.pcur == cursor == cfg.Word(P) && OwnsFree(cfg, s) && s.slots[P % cfg.size].tick == t
    case PStored(cursor, t) =>
      P >= 1 && s.pcur == cursor == cfg.Word(P - 1) && t == s.accepted[P - 1]
  }

  /** The producer holds the free slot of the next cursor, and has seen its newest entry. */
  predicate OwnsFree(cfg: Config, s: State)
    requires s.Run? && |s.slots| == cfg.size
  {
    && |s.accepted| < |s.consumed| + cfg.size
    && NewestSeen(s.slots[|s.accepted| % cfg.size].hist, s.pview)
  }

  /** The consumer holds the full slot of the next cursor, and has seen its newest entry. */
  predicate OwnsFull(cfg: Config, s: State)
    requires s.Run? && |s.slots| == cfg.size
  {
    && |s.consumed| < |s.accepted|
    && NewestSeen(s.slots[|s.consumed| % cfg.size].hist, s.cview)
  }

  predicate ConsumerInv(cfg: Config, s: State)
    requires s.Run? && |s.slots| == cfg.size
  {
    var C := |s.consumed|;
    match s.cpc
    case CIdle => s.ccur == cfg.Word(C) && s.delivered == s.consumed
    case CGot(cursor) => s.ccur == cursor == cfg.Word(C) && s.delivered == s.consumed
    case CPassed(cursor) =>
      s.ccur == cursor == cfg.Word(C) && s.delivered == s.consumed && OwnsFull(cfg, s)
    case CRead(cursor, t) =>
      && s.ccur == cursor == cfg.Word(C) && s.delivered == s.consumed && OwnsFull(cfg, s)
      && t == s.accepted[C]
    case CStored(cursor, t) =>
      C >= 1 && s.ccur == cursor == cfg.Word(C - 1) && s.consumed == s.delivered + [t]
  }

  /** The ticks of the calls that returned true, in call order. */
  function Successes(outcomes: seq<Outcome>): seq<Tick> {
    if outcomes == [] then []
    else
      var last := outcomes[|outcomes| - 1];
      Successes(outcomes[..|outcomes| - 1]) + if last.ok then [last.tick] else []
  }

  /** How many calls returned false. */
  function Refusals(outcomes: seq<Outcome>): nat {
    if outcomes == [] then 0
    else
      Refusals(outcomes[..|outcomes| - 1]) + if outcomes[|outcomes| - 1].ok then 0 else 1
  }

  predicate CountsInv(cfg: Config, s: State)
    requires s.Run?
  {
    && s.dropped == cfg.Word(Refusals(s.outcomes))
    && s.accepted == Successes(s.outcomes) + (if s.ppc.PStored? then [s.ppc.tick] else [])
    && s.started == |s.outcomes| + (if s.ppc.PIdle? then 0 else 1)
  }

  predicate StampsInv(s: State)
    requires s.Run?
  {
    forall i :: 0 <= i < |s.slots| ==>
      s.slots[i].lastWrite <= s.pview.p && s.slots[i].lastRead <= s.cview.c
  }

  predicate Inv(cfg: Config, s: State) {
    && s.Run?
    && |s.slots| == cfg.size
    && |s.consumed| <= |s.accepted| <= |s.consumed| + cfg.size
    && s.consumed == s.accepted[..|s.consumed|]
    && StampsInv(s)
    && (forall n :: |s.consumed| <= n < |s.consumed| + cfg.size ==> SlotOf(cfg, s, n))
    && ProducerInv(cfg, s)
    && ConsumerInv(cfg, s)
    && CountsInv(cfg, s)
  }

  /** At least two slots, so that `cursor + 1` and `cursor + N` are different words. */
  ghost predicate Proper(cfg: Config) {
    cfg.Valid() && cfg.size >= 2
  }

  lemma SizeBounds(cfg: Config)
    requires cfg.Valid()
    ensures cfg.size <= TWO_64 / 2
  {
    var k: nat :| k < 64 && cfg.size == Pow2(k);
    RingFits(k);
  }

  /** The slot a machine word selects is the slot of the cursor it stands for. */
  lemma WordSlot(cfg: Config, x: nat)
    requires cfg.Valid()
    ensures cfg.Index(cfg.Word(x)) == x % cfg.size
  {
    var k: nat :| k < 64 && cfg.size == Pow2(k);
    ReducedSlot(x, k);
  }

  /** Word arithmetic agrees with the arithmetic of the cursors it stands for. */
  lemma WordPlus(cfg: Config, x: nat, d: nat)
    ensures cfg.Word(cfg.Word(x) + d) == cfg.Word(x + d)
  {
  }

  lemma WordDistinct(cfg: Config, a: nat, b: nat)
    requires a < b < a + TWO_64
    ensures cfg.Word(a) != cfg.Word(b)
  {
    ReducedDistinct(a, b);
  }

  lemma InitInv(cfg: Config, blank: Tick)
    requires Proper(cfg)
    ensures Inv(cfg, Init(cfg, blank))
  {
    SizeBounds(cfg);
    var s := Init(cfg, blank);
    forall n | 0 <= n < cfg.size ensures SlotOf(cfg, s, n) {
      ModUnique(n, cfg.size, 0, n);
    }
  }

  /** A slot that no step touched keeps its meaning while clocks and logs grow. */
  lemma SlotFrame(cfg: Config, s: State, s': State, n: nat)
    requires s.Run? && s'.Run? && |s.slots| == |s'.slots| == cfg.size
    requires SlotOf(cfg, s, n)
    requires s'.slots[n % cfg.size] == s.slots[n % cfg.size]
    requires s.accepted <= s'.accepted
    requires n < |s'.accepted| ==> n < |s.accepted|
    requires s.pview.Leq(s'.pview) && s.cview.Leq(s'.cview)
    ensures SlotOf(cfg, s', n)
  {
  }

  /** Steps that write no slot: only clocks, program counters and counters move. */
  lemma SlotsFrame(cfg: Config, s: State, s': State)
    requires Inv(cfg, s) && s'.Run?
    requires s'.slots == s.slots && s'.accepted == s.accepted && s'.consumed == s.consumed
    requires s.pview.Leq(s'.pview) && s.cview.Leq(s'.cview)
    ensures StampsInv(s')
    ensures forall n :: |s.consumed| <= n < |s.consumed| + cfg.size ==> SlotOf(cfg, s', n)
  {
    forall n | |s.consumed| <= n < |s.consumed| + cfg.size ensures SlotOf(cfg, s', n) {
      SlotFrame(cfg, s, s', n);
    }
  }

  /** Steps that write one slot, that of cursor m: every other cursor of the
      window keeps its slot. */
  lemma OthersFrame(cfg: Config, s: State, s': State, m: nat)
    requires Inv(cfg, s) && s'.Run? && |s'.slots| == |s.slots|
    requires |s.consumed| <= m < |s.consumed| + cfg.size
    requires forall i :: 0 <= i < |s.slots| && i != m % cfg.size ==> s'.slots[i] == s.slots[i]
    requires s.accepted <= s'.accepted && (|s'.accepted| == |s.accepted| || |s'.accepted| == m + 1)
    requires |s'.accepted| <= |s.accepted| + 1
    requires s.pview.Leq(s'.pview) && s.cview.Leq(s'.cview)
    ensures forall n :: |s.consumed| <= n < |s.consumed| + cfg.size && n != m ==>
      n % cfg.size != m % cfg.size && SlotOf(cfg, s', n)
  {
    forall n | |s.consumed| <= n < |s.consumed| + cfg.size && n != m
      ensures n % cfg.size != m % cfg.size && SlotOf(cfg, s', n)
    {
      ModInjective(if n < m then n else m, if n < m then m else n, cfg.size);
      SlotFrame(cfg, s, s', n);
    }
  }

  /** What the producer can find in the slot of its next cursor: the entry it
      waits for, which is then the newest, or its own previous store, or a
      stale entry that stands for the lap before. */
  lemma ProducerLoad(cfg: Config, s: State, j: nat)
    requires Proper(cfg) && Inv(cfg, s)
    requires CanLoad(s.slots[|s.accepted| % cfg.size].hist, j, s.pview)
    ensures var hist := s.slots[|s.accepted| % cfg.size].hist;
      hist[j].val == cfg.Word(|s.accepted|)
      <==> j == |hist| - 1 && |s.accepted| < |s.consumed| + cfg.size
  {
    SizeBounds(cfg);
    var P, C, N := |s.accepted|, |s.consumed|, cfg.size;
    var hist := s.slots[P % N].hist;
    if P < C + N {
      assert SlotOf(cfg, s, P);
      if j < |hist| - 1 {
        assert j == |hist| - 2;
        WordDistinct(cfg, P - N + 1, P);
      }
    } else {
      assert SlotOf(cfg, s, C);
      assert P == C + 1 * N;
      ModPlusMultiple(C, N, 1);
      assert hist == s.slots[C % N].hist;
      WordDistinct(cfg, C + 1, P);
    }
  }

  /** What the consumer can find in the slot of its next cursor. */
  lemma ConsumerLoad(cfg: Config, s: State, j: nat)
    requires Proper(cfg) && Inv(cfg, s)
    requires CanLoad(s.slots[|s.consumed| % cfg.size].hist, j, s.cview)
    ensures var hist := s.slots[|s.consumed| % cfg.size].hist;
      hist[j].val == cfg.Word(|s.consumed| + 1)
      <==> j == |hist| - 1 && |s.consumed| < |s.accepted|
  {
    SizeBounds(cfg);
    var C := |s.consumed|;
    assert SlotOf(cfg, s, C);
    WordDistinct(cfg, C, C + 1);
  }

  lemma PublishStartInv(cfg: Config, s: State, t: Tick)
    requires Proper(cfg) && Inv(cfg, s)
    ensures Inv(cfg, PublishStart(s, t))
  {
    SlotsFrame(cfg, s, PublishStart(s, t));
  }

  /** What the load leaves the producer with, whether it passes the check or not. */
  lemma ProducerLoads(cfg: Config, s: State, j: nat)
    requires Proper(cfg) && Inv(cfg, s) && s.ppc.PGot?
    requires CanLoad(s.slots[|s.accepted| % cfg.size].hist, j, s.pview)
    ensures ProducerInv(cfg, PublishLoad(cfg, s, j))
  {
    WordSlot(cfg, |s.accepted|);
    ProducerLoad(cfg, s, j);
  }

  lemma PublishLoadInv(cfg: Config, s: State, j: nat)
    requires Proper(cfg) && Inv(cfg, s)
    ensures Inv(cfg, PublishLoad(cfg, s, j))
  {
    WordSlot(cfg, |s.accepted|);
    if s.ppc.PGot? && CanLoad(s.slots[|s.accepted| % cfg.size].hist, j, s.pview) {
      ProducerLoads(cfg, s, j);
      ConsumerFrame(cfg, s, PublishLoad(cfg, s, j));
      SlotsFrame(cfg, s, PublishLoad(cfg, s, j));
    }
  }

  lemma OutcomeAppended(outcomes: seq<Outcome>, o: Outcome)
    ensures Successes(outcomes + [o]) == Successes(outcomes) + if o.ok then [o.tick] else []
    ensures Refusals(outcomes + [o]) == Refusals(outcomes) + if o.ok then 0 else 1
  {
    assert (outcomes + [o])[..|outcomes|] == outcomes;
  }

  lemma RefusalCounted(cfg: Config, s: State)
    requires s.Run? && CountsInv(cfg, s) && s.ppc.PRefused?
    ensures CountsInv(cfg, PublishCountDrop(cfg, s))
  {
    WordPlus(cfg, Refusals(s.outcomes), 1);
    OutcomeAppended(s.outcomes, Outcome(s.ppc.tick, false));
  }

  lemma PublishCountDropInv(cfg: Config, s: State)
    requires Proper(cfg) && Inv(cfg, s)
    ensures Inv(cfg, PublishCountDrop(cfg, s))
  {
    if s.ppc.PRefused? {
      SlotsFrame(cfg, s, PublishCountDrop(cfg, s));
      ConsumerFrame(cfg, s, PublishCountDrop(cfg, s));
      RefusalCounted(cfg, s);
    }
  }

  lemma SuccessCounted(cfg: Config, s: State)
    requires s.Run? && CountsInv(cfg, s) && s.ppc.PStored?
    ensures CountsInv(cfg, PublishFinish(cfg, s))
  {
    OutcomeAppended(s.outcomes, Outcome(s.ppc.tick, true));
  }

  lemma PublishFinishInv(cfg: Config, s: State)
    requires Proper(cfg) && Inv(cfg, s)
    ensures Inv(cfg, PublishFinish(cfg, s))
  {
    if s.ppc.PStored? {
      SlotsFrame(cfg, s, PublishFinish(cfg, s));
      ConsumerFrame(cfg, s, PublishFinish(cfg, s));
      SuccessCounted(cfg, s);
      WordPlus(cfg, |s.accepted| - 1, 1);
    }
  }

  lemma ConsumeStartInv(cfg: Config, s: State)
    requires Proper(cfg) && Inv(cfg, s)
    ensures Inv(cfg, ConsumeStart(s))
  {
    SlotsFrame(cfg, s, ConsumeStart(s));
  }

  /** What the load leaves the consumer with, whether it passes the check or not. */
  lemma ConsumerLoads(cfg: Config, s: State, j: nat)
    requires Proper(cfg) && Inv(cfg, s) && s.cpc.CGot?
    requires CanLoad(s.slots[|s.consumed| % cfg.size].hist, j, s.cview)
    ensures ConsumerInv(cfg, ConsumeLoad(cfg, s, j))
  {
    WordSlot(cfg, |s.consumed|);
    WordPlus(cfg, |s.consumed|, 1);
    ConsumerLoad(cfg, s, j);
  }

  lemma ConsumeLoadInv(cfg: Config, s: State, j: nat)
    requires Proper(cfg) && Inv(cfg, s)
    ensures Inv(cfg, ConsumeLoad(cfg, s, j))
  {
    WordSlot(cfg, |s.consumed|);
    if s.cpc.CGot? && CanLoad(s.slots[|s.consumed| % cfg.size].hist, j, s.cview) {
      ConsumerLoads(cfg, s, j);
      ProducerFrame(cfg, s, ConsumeLoad(cfg, s, j));
      SlotsFrame(cfg, s, ConsumeLoad(cfg, s, j));
    }
  }

  lemma ConsumerFinishes(cfg: Config, s: State)
    requires s.Run? && |s.slots| == cfg.size && ConsumerInv(cfg, s) && s.cpc.CStored?
    ensures ConsumerInv(cfg, ConsumeFinish(cfg, s))
  {
    WordPlus(cfg, |s.consumed| - 1, 1);
  }

  lemma ConsumeFinishInv(cfg: Config, s: State)
    requires Proper(cfg) && Inv(cfg, s)
    ensures Inv(cfg, ConsumeFinish(cfg, s))
  {
    if s.cpc.CStored? {
      SlotsFrame(cfg, s, ConsumeFinish(cfg, s));
      ConsumerFinishes(cfg, s);
    }
  }

  lemma ConsumerFrame(cfg: Config, s: State, s': State)
    requires s.Run? && s'.Run? && |s'.slots| == |s.slots| == cfg.size
    requires ConsumerInv(cfg, s)
    requires s'.cpc == s.cpc && s'.ccur == s.ccur && s'.cview == s.cview
    requires s'.consumed == s.consumed && s'.delivered == s.delivered && s.accepted <= s'.accepted
    requires OwnsFull(cfg, s) ==>
      s'.slots[|s.consumed| % cfg.size] == s.slots[|s.consumed| % cfg.size]
    ensures ConsumerInv(cfg, s')
  {
  }

  lemma ProducerFrame(cfg: Config, s: State, s': State)
    requires s.Run? && s'.Run? && |s'.slots| == |s.slots| == cfg.size
    requires ProducerInv(cfg, s)
    requires s'.ppc == s.ppc && s'.pcur == s.pcur && s'.pview == s.pview && s'.accepted == s.accepted
    requires |s'.consumed| >= |s.consumed|
    requires OwnsFree(cfg, s) ==>
      s'.slots[|s.accepted| % cfg.size] == s.slots[|s.accepted| % cfg.size]
    ensures ProducerInv(cfg, s')
  {
  }

  lemma PublishWriteInv(cfg: Config, s: State)
    requires Proper(cfg) && Inv(cfg, s) && s.ppc.PPassed?
    ensures Inv(cfg, PublishWrite(cfg, s))
  {
    var s' := PublishWrite(cfg, s);
    var P := |s.accepted|;
    WordSlot(cfg, P);
    assert SlotOf(cfg, s, P);
    OthersFrame(cfg, s, s', P);
    assert SlotOf(cfg, s', P);
    ConsumerFrame(cfg, s, s');
  }

  lemma ConsumeReadInv(cfg: Config, s: State)
    requires Proper(cfg) && Inv(cfg, s) && s.cpc.CPassed?
    ensures Inv(cfg, ConsumeRead(cfg, s))
  {
    var s' := ConsumeRead(cfg, s);
    var C := |s.consumed|;
    WordSlot(cfg, C);
    assert SlotOf(cfg, s, C);
    OthersFrame(cfg, s, s', C);
    assert SlotOf(cfg, s', C);
    ProducerFrame(cfg, s, s');
  }

  /** A publish turns the free slot of the next cursor into a full one. */
  lemma PublishFills(cfg: Config, s: State)
    requires Proper(cfg) && Inv(cfg, s) && s.ppc.PWrote?
    ensures var s' := PublishStore(cfg, s);
      && s'.Run? && |s'.slots| == |s.slots| && |s'.accepted| == |s.accepted| + 1
      && Full(cfg, s', |s.accepted|)
      && s'.pcur == s'.ppc.cursor == cfg.Word(|s.accepted|)
  {
    var P := |s.accepted|;
    WordSlot(cfg, P);
    WordPlus(cfg, P, 1);
    assert SlotOf(cfg, s, P);
  }

  lemma PublishStoreInv(cfg: Config, s: State)
    requires Proper(cfg) && Inv(cfg, s) && s.ppc.PWrote?
    ensures Inv(cfg, PublishStore(cfg, s))
  {
    var s' := PublishStore(cfg, s);
    var P := |s.accepted|;
    WordSlot(cfg, P);
    PublishFills(cfg, s);
    OthersFrame(cfg, s, s', P);
    ConsumerFrame(cfg, s, s');
  }

  /** A release turns the slot of the oldest unread cursor into the free slot of
      the cursor one lap ahead. */
  lemma ReleaseFrees(cfg: Config, s: State)
    requires Proper(cfg) && Inv(cfg, s) && s.cpc.CRead?
    ensures var s' := ConsumeStore(cfg, s);
      s'.Run? && |s'.slots| == |s.slots| && Free(cfg, s', |s.consumed| + cfg.size)
  {
    var C, N := |s.consumed|, cfg.size;
    WordSlot(cfg, C);
    WordPlus(cfg, C, N);
    assert SlotOf(cfg, s, C);
    ModPlusMultiple(C, N, 1);
  }

  lemma ConsumeStoreInv(cfg: Config, s: State)
    requires Proper(cfg) && Inv(cfg, s) && s.cpc.CRead?
    ensures Inv(cfg, ConsumeStore(cfg, s))
  {
    var s' := ConsumeStore(cfg, s);
    var P, C, N := |s.accepted|, |s.consumed|, cfg.size;
    WordSlot(cfg, C);
    assert SlotOf(cfg, s, C);
    OthersFrame(cfg, s, s', C);
    ReleaseFrees(cfg, s);
    ProducerFrame(cfg, s, s');
    forall n | C + 1 <= n < C + 1 + N ensures SlotOf(cfg, s', n) {
    }
  }

  lemma StepInv(cfg: Config, s: State, a: Action)
    requires Proper(cfg) && Inv(cfg, s)
    ensures Inv(cfg, Do(cfg, s, a))
  {
    match a
    case PStart(t) => PublishStartInv(cfg, s, t);
    case PLoad(j) => PublishLoadInv(cfg, s, j);
    case PCountDrop => PublishCountDropInv(cfg, s);
    case PWriteCell => if s.ppc.PPassed? { PublishWriteInv(cfg, s); }
    case PStoreSlot => if s.ppc.PWrote? { PublishStoreInv(cfg, s); }
    case PStoreCursor => PublishFinishInv(cfg, s);
    case CStart => ConsumeStartInv(cfg, s);
    case CLoad(j) => ConsumeLoadInv(cfg, s, j);
    case CReadCell => if s.cpc.CPassed? { ConsumeReadInv(cfg, s); }
    case CStoreSlot => if s.cpc.CRead? { ConsumeStoreInv(cfg, s); }
    case CStoreCursor => ConsumeFinishInv(cfg, s);
  }

  /** Every state that any schedule of either machine reaches satisfies the invariant. */
  lemma {:induction false} Reachable(cfg: Config, blank: Tick, acts: seq<Action>)
    requires Proper(cfg)
    ensures Inv(cfg, Exec(cfg, blank, acts))
  {
    if acts == [] {
      InitInv(cfg, blank);
    } else {
      Reachable(cfg, blank, acts[..|acts| - 1]);
      StepInv(cfg, Exec(cfg, blank, acts[..|acts| - 1]), acts[|acts| - 1]);
    }
  }
}
