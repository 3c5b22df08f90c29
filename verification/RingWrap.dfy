/** The code's cursors are u64 words that wrap.  Under every schedule the wrapping
    machine mirrors the machine with unbounded cursors. */
module RingWrap {
  import opened Ticks
  import opened RingMachine
  import opened RingSafety

  function WrapMsg(m: Msg): Msg {
    m.(val := m.val % TWO_64)
  }

  function WrapHist(hist: seq<Msg>): (h: seq<Msg>)
    ensures |h| == |hist|
    ensures forall i :: 0 <= i < |h| ==> h[i] == WrapMsg(hist[i])
  {
    seq(|hist|, i requires 0 <= i < |hist| => WrapMsg(hist[i]))
  }

  function WrapSlot(slot: Slot): Slot {
    slot.(hist := WrapHist(slot.hist))
  }

  function WrapSlots(slots: seq<Slot>): (r: seq<Slot>)
    ensures |r| == |slots|
    ensures forall i :: 0 <= i < |r| ==> r[i] == WrapSlot(slots[i])
  {
    seq(|slots|, i requires 0 <= i < |slots| => WrapSlot(slots[i]))
  }

  function WrapProducer(pc: ProducerPc): ProducerPc {
    match pc
    case PIdle => PIdle
    case PGot(cursor, t) => PGot(cursor % TWO_64, t)
    case PRefused(t) => PRefused(t)
    case PPassed(cursor, t) => PPassed(cursor % TWO_64, t)
    case PWrote(cursor, t) => PWrote(cursor % TWO_64, t)
    case PStored(cursor, t) => PStored(cursor % TWO_64, t)
  }

  function WrapConsumer(pc: ConsumerPc): ConsumerPc {
    match pc
    case CIdle => CIdle
    case CGot(cursor) => CGot(cursor % TWO_64)
    case CPassed(cursor) => CPassed(cursor % TWO_64)
    case CRead(cursor, t) => CRead(cursor % TWO_64, t)
    case CStored(cursor, t) => CStored(cursor % TWO_64, t)
  }

  /** Every word reduced modulo 2^64, everything else as it is. */
  function WrapState(s: State): State {
    if s.UB? then UB
    else s.(slots := WrapSlots(s.slots), pcur := s.pcur % TWO_64, ccur := s.ccur % TWO_64,
            dropped := s.dropped % TWO_64, ppc := WrapProducer(s.ppc), cpc := WrapConsumer(s.cpc))
  }

  lemma WrapLoads(hist: seq<Msg>, j: nat, view: Clock)
    ensures CanLoad(WrapHist(hist), j, view) <==> CanLoad(hist, j, view)
    ensures NewestSeen(WrapHist(hist), view) <==> NewestSeen(hist, view)
  {
    var h := WrapHist(hist);
    forall k | 0 <= k < |hist| ensures h[k].at == hist[k].at {
    }
    if CanLoad(h, j, view) {
      forall k | j < k < |hist| ensures !hist[k].at.Leq(view) {
        assert !h[k].at.Leq(view);
      }
    }
  }

  lemma WrapAppend(hist: seq<Msg>, m: Msg)
    ensures WrapHist(hist + [m]) == WrapHist(hist) + [WrapMsg(m)]
  {
  }

  lemma WrapUpdate(slots: seq<Slot>, i: nat, slot: Slot)
    requires i < |slots|
    ensures WrapSlots(slots[i := slot]) == WrapSlots(slots)[i := WrapSlot(slot)]
  {
  }

  /** The state of an unbounded run and its reduction are both states of runs. */
  ghost predicate Mirrored(size: Positive, s: State) {
    Proper(Config(size, true)) && Inv(Config(size, false), s) && Inv(Config(size, true), WrapState(s))
  }

  // What a step needs of a state to commute with the reduction: both cursors
  // select the same slot, and a comparison comes out the same.

  predicate SameSlot(size: Positive, s: State, cursor: nat)
    requires s.Run?
  {
    var i := Config(size, false).Index(cursor);
    i < |s.slots| && i == Config(size, true).Index(cursor % TWO_64)
  }

  lemma PublishLoadCommutes(size: Positive, s: State, j: nat)
    requires s.Run? && s.ppc.PGot? && SameSlot(size, s, s.ppc.cursor)
    requires var hist := s.slots[Config(size, false).Index(s.ppc.cursor)].hist;
      CanLoad(hist, j, s.pview) ==> (hist[j].val == s.ppc.cursor <==> hist[j].val % TWO_64 == s.ppc.cursor % TWO_64)
    ensures WrapState(PublishLoad(Config(size, false), s, j)) == PublishLoad(Config(size, true), WrapState(s), j)
  {
    WrapLoads(s.slots[Config(size, false).Index(s.ppc.cursor)].hist, j, s.pview);
  }

  lemma ConsumeLoadCommutes(size: Positive, s: State, j: nat)
    requires s.Run? && s.cpc.CGot? && SameSlot(size, s, s.cpc.cursor)
    requires var hist := s.slots[Config(size, false).Index(s.cpc.cursor)].hist;
      CanLoad(hist, j, s.cview) ==>
        (hist[j].val == s.cpc.cursor + 1 <==> hist[j].val % TWO_64 == (s.cpc.cursor % TWO_64 + 1) % TWO_64)
    ensures WrapState(ConsumeLoad(Config(size, false), s, j)) == ConsumeLoad(Config(size, true), WrapState(s), j)
  {
    WrapLoads(s.slots[Config(size, false).Index(s.cpc.cursor)].hist, j, s.cview);
  }

  lemma PublishWriteCommutes(size: Positive, s: State)
    requires s.Run? && s.ppc.PPassed? && SameSlot(size, s, s.ppc.cursor)
    ensures WrapState(PublishWrite(Config(size, false), s)) == PublishWrite(Config(size, true), WrapState(s))
  {
    var i := Config(size, false).Index(s.ppc.cursor);
    WrapUpdate(s.slots, i, s.slots[i].(tick := s.ppc.tick, lastWrite := s.pview.p + 1));
  }

  lemma ConsumeReadCommutes(size: Positive, s: State)
    requires s.Run? && s.cpc.CPassed? && SameSlot(size, s, s.cpc.cursor)
    ensures WrapState(ConsumeRead(Config(size, false), s)) == ConsumeRead(Config(size, true), WrapState(s))
  {
    var i := Config(size, false).Index(s.cpc.cursor);
    WrapUpdate(s.slots, i, s.slots[i].(lastRead := s.cview.c + 1));
  }

  lemma PublishStoreCommutes(size: Positive, s: State)
    requires s.Run? && s.ppc.PWrote? && SameSlot(size, s, s.ppc.cursor)
    requires (s.ppc.cursor + 1) % TWO_64 == (s.ppc.cursor % TWO_64 + 1) % TWO_64
    ensures WrapState(PublishStore(Config(size, false), s)) == PublishStore(Config(size, true), WrapState(s))
  {
    var i := Config(size, false).Index(s.ppc.cursor);
    WrapLoads(s.slots[i].hist, 0, s.pview);
    WrapStore(s.slots, i, Msg(s.ppc.cursor + 1, s.pview.(p := s.pview.p + 1)));
  }

  lemma ConsumeStoreCommutes(size: Positive, s: State)
    requires s.Run? && s.cpc.CRead? && SameSlot(size, s, s.cpc.cursor)
    requires (s.cpc.cursor + size) % TWO_64 == (s.cpc.cursor % TWO_64 + size) % TWO_64
    ensures WrapState(ConsumeStore(Config(size, false), s)) == ConsumeStore(Config(size, true), WrapState(s))
  {
    var i := Config(size, false).Index(s.cpc.cursor);
    WrapLoads(s.slots[i].hist, 0, s.cview);
    WrapStore(s.slots, i, Msg(s.cpc.cursor + size, s.cview.(c := s.cview.c + 1)));
  }

  // Both hold in every state of a run.

  lemma ProducerSlot(size: Positive, s: State)
    requires Mirrored(size, s) && (s.ppc.PGot? || s.ppc.PPassed? || s.ppc.PWrote?)
    ensures s.ppc.cursor == |s.accepted| && SameSlot(size, s, s.ppc.cursor)
    ensures Config(size, false).Index(s.ppc.cursor) == |s.accepted| % size
  {
    WordSlot(Config(size, true), |s.accepted|);
  }

  lemma ConsumerSlot(size: Positive, s: State)
    requires Mirrored(size, s) && (s.cpc.CGot? || s.cpc.CPassed? || s.cpc.CRead?)
    ensures s.cpc.cursor == |s.consumed| && SameSlot(size, s, s.cpc.cursor)
    ensures Config(size, false).Index(s.cpc.cursor) == |s.consumed| % size
  {
    WordSlot(Config(size, true), |s.consumed|);
  }

  lemma ProducerCompares(size: Positive, s: State, j: nat)
    requires Mirrored(size, s)
    requires CanLoad(s.slots[|s.accepted| % size].hist, j, s.pview)
    ensures var hist := s.slots[|s.accepted| % size].hist;
      hist[j].val == |s.accepted| <==> hist[j].val % TWO_64 == |s.accepted| % TWO_64
  {
    WrapLoads(s.slots[|s.accepted| % size].hist, j, s.pview);
    ProducerLoad(Config(size, false), s, j);
    ProducerLoad(Config(size, true), WrapState(s), j);
  }

  lemma ConsumerCompares(size: Positive, s: State, j: nat)
    requires Mirrored(size, s)
    requires CanLoad(s.slots[|s.consumed| % size].hist, j, s.cview)
    ensures var hist := s.slots[|s.consumed| % size].hist;
      hist[j].val == |s.consumed| + 1 <==> hist[j].val % TWO_64 == (|s.consumed| + 1) % TWO_64
  {
    WrapLoads(s.slots[|s.consumed| % size].hist, j, s.cview);
    ConsumerLoad(Config(size, false), s, j);
    ConsumerLoad(Config(size, true), WrapState(s), j);
  }

  lemma WrapPublishLoad(size: Positive, s: State, j: nat)
    requires Mirrored(size, s) && s.ppc.PGot?
    ensures WrapState(PublishLoad(Config(size, false), s, j)) == PublishLoad(Config(size, true), WrapState(s), j)
  {
    ProducerSlot(size, s);
    if CanLoad(s.slots[|s.accepted| % size].hist, j, s.pview) {
      ProducerCompares(size, s, j);
    }
    PublishLoadCommutes(size, s, j);
  }

  lemma WrapConsumeLoad(size: Positive, s: State, j: nat)
    requires Mirrored(size, s) && s.cpc.CGot?
    ensures WrapState(ConsumeLoad(Config(size, false), s, j)) == ConsumeLoad(Config(size, true), WrapState(s), j)
  {
    ConsumerSlot(size, s);
    WordPlus(Config(size, true), |s.consumed|, 1);
    if CanLoad(s.slots[|s.consumed| % size].hist, j, s.cview) {
      ConsumerCompares(size, s, j);
    }
    ConsumeLoadCommutes(size, s, j);
  }

  lemma WrapPublishWrite(size: Positive, s: State)
    requires Mirrored(size, s) && s.ppc.PPassed?
    ensures WrapState(PublishWrite(Config(size, false), s)) == PublishWrite(Config(size, true), WrapState(s))
  {
    ProducerSlot(size, s);
    PublishWriteCommutes(size, s);
  }

  lemma WrapConsumeRead(size: Positive, s: State)
    requires Mirrored(size, s) && s.cpc.CPassed?
    ensures WrapState(ConsumeRead(Config(size, false), s)) == ConsumeRead(Config(size, true), WrapState(s))
  {
    ConsumerSlot(size, s);
    ConsumeReadCommutes(size, s);
  }

  lemma WrapPublishStore(size: Positive, s: State)
    requires Mirrored(size, s) && s.ppc.PWrote?
    ensures WrapState(PublishStore(Config(size, false), s)) == PublishStore(Config(size, true), WrapState(s))
  {
    ProducerSlot(size, s);
    WordPlus(Config(size, true), |s.accepted|, 1);
    PublishStoreCommutes(size, s);
  }

  lemma WrapConsumeStore(size: Positive, s: State)
    requires Mirrored(size, s) && s.cpc.CRead?
    ensures WrapState(ConsumeStore(Config(size, false), s)) == ConsumeStore(Config(size, true), WrapState(s))
  {
    ConsumerSlot(size, s);
    WordPlus(Config(size, true), |s.consumed|, size);
    ConsumeStoreCommutes(size, s);
  }

  lemma WrapStore(slots: seq<Slot>, i: nat, m: Msg)
    requires i < |slots|
    ensures WrapSlots(slots[i := slots[i].(hist := slots[i].hist + [m])])
      == WrapSlots(slots)[i := WrapSlots(slots)[i].(hist := WrapSlots(slots)[i].hist + [WrapMsg(m)])]
  {
    WrapAppend(slots[i].hist, m);
    WrapUpdate(slots, i, slots[i].(hist := slots[i].hist + [m]));
  }

  // The steps that touch only a thread's own cursor and counters.

  lemma WrapPublishStart(s: State, t: Tick)
    requires s.Run?
    ensures WrapState(PublishStart(s, t)) == PublishStart(WrapState(s), t)
  {
  }

  lemma WrapPublishCountDrop(size: Positive, s: State)
    requires s.Run?
    ensures WrapState(PublishCountDrop(Config(size, false), s)) == PublishCountDrop(Config(size, true), WrapState(s))
  {
  }

  lemma WrapPublishFinish(size: Positive, s: State)
    requires s.Run?
    ensures WrapState(PublishFinish(Config(size, false), s)) == PublishFinish(Config(size, true), WrapState(s))
  {
  }

  lemma WrapConsumeFinish(size: Positive, s: State)
    requires s.Run?
    ensures WrapState(ConsumeFinish(Config(size, false), s)) == ConsumeFinish(Config(size, true), WrapState(s))
  {
  }

  lemma WrapConsumeStart(s: State)
    requires s.Run?
    ensures WrapState(ConsumeStart(s)) == ConsumeStart(WrapState(s))
  {
  }

  /** One micro-step commutes with the reduction, from any state of a run. */
  lemma WrapStep(size: Positive, s: State, a: Action)
    requires Mirrored(size, s)
    ensures WrapState(Do(Config(size, false), s, a)) == Do(Config(size, true), WrapState(s), a)
  {
    match a
    case PLoad(j) => if s.ppc.PGot? { WrapPublishLoad(size, s, j); }
    case CLoad(j) => if s.cpc.CGot? { WrapConsumeLoad(size, s, j); }
    case PWriteCell => if s.ppc.PPassed? { WrapPublishWrite(size, s); }
    case CReadCell => if s.cpc.CPassed? { WrapConsumeRead(size, s); }
    case PStoreSlot => if s.ppc.PWrote? { WrapPublishStore(size, s); }
    case CStoreSlot => if s.cpc.CRead? { WrapConsumeStore(size, s); }
    case PStart(t) => WrapPublishStart(s, t);
    case PCountDrop => WrapPublishCountDrop(size, s);
    case PStoreCursor => WrapPublishFinish(size, s);
    case CStart => WrapConsumeStart(s);
    case CStoreCursor => WrapConsumeFinish(size, s);
  }

  /** Under any schedule, through any number of wraparounds, the wrapping u64
      machine is at every moment the unbounded machine with its words reduced. */
  lemma {:induction false} WrappingRefinesUnbounded(size: Positive, blank: Tick, acts: seq<Action>)
    requires Proper(Config(size, true))
    ensures Exec(Config(size, true), blank, acts) == WrapState(Exec(Config(size, false), blank, acts))
  {
    var u, w := Config(size, false), Config(size, true);
    if acts == [] {
      SizeBounds(u);
      var slots := Init(u, blank).slots;
      forall i | 0 <= i < |slots| ensures WrapSlots(slots)[i] == slots[i] {
        assert WrapHist([Msg(i, ORIGIN)]) == [Msg(i, ORIGIN)];
      }
      assert WrapSlots(slots) == slots == Init(w, blank).slots;
    } else {
      var prefix, a := acts[..|acts| - 1], acts[|acts| - 1];
      WrappingRefinesUnbounded(size, blank, prefix);
      Reachable(u, blank, prefix);
      Reachable(w, blank, prefix);
      WrapStep(size, Exec(u, blank, prefix), a);
    }
  }
}
