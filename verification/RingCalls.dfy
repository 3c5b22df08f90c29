/** Calls that run alone: what a whole `try_publish` or `try_consume` does when the
    other thread stands still, wherever it was interrupted, and the call's load is
    up to date. */
module RingCalls {
  import opened Ticks
  import opened Bits
  import opened RingMachine
  import opened RingSafety
  import opened RingTheorems

  /** The newest entry of the slot that a cursor word selects. */
  function Newest(cfg: Config, s: State, cursor: nat): nat
    requires s.Run?
  {
    var i := cfg.Index(cursor);
    if i < |s.slots| && s.slots[i].hist != [] then |s.slots[i].hist| - 1 else 0
  }

  /** The steps of `try_publish` up to its comparison, the load up to date. */
  ghost function PublishHead(cfg: Config, s: State, t: Tick): State
    requires s.Run?
  {
    var s1 := PublishStart(s, t);
    PublishLoad(cfg, s1, Newest(cfg, s1, s.pcur))
  }

  /** The steps after it.  Only those of the outcome at hand do anything. */
  ghost function PublishTail(cfg: Config, s: State): State {
    Do(cfg, Do(cfg, Do(cfg, Do(cfg, s, PCountDrop), PWriteCell), PStoreSlot), PStoreCursor)
  }

  ghost function ConsumeHead(cfg: Config, s: State): State
    requires s.Run?
  {
    var s1 := ConsumeStart(s);
    ConsumeLoad(cfg, s1, Newest(cfg, s1, s.ccur))
  }

  ghost function ConsumeTail(cfg: Config, s: State): State {
    Do(cfg, Do(cfg, Do(cfg, s, CReadCell), CStoreSlot), CStoreCursor)
  }

  /** The newest entry of the next cursor's slot can always be loaded, and the
      producer has a free slot there exactly when the ring is not full. */
  lemma PublishSees(cfg: Config, s: State)
    requires Proper(cfg) && Inv(cfg, s)
    ensures var hist := s.slots[|s.accepted| % cfg.size].hist;
      var j := |hist| - 1;
      && hist != [] && Newest(cfg, s, cfg.Word(|s.accepted|)) == j && CanLoad(hist, j, s.pview)
      && (hist[j].val == cfg.Word(|s.accepted|) <==> |s.accepted| < |s.consumed| + cfg.size)
  {
    WordSlot(cfg, |s.accepted|);
    if |s.accepted| < |s.consumed| + cfg.size {
      assert SlotOf(cfg, s, |s.accepted|);
    } else {
      assert SlotOf(cfg, s, |s.consumed|);
      ModPlusMultiple(|s.consumed|, cfg.size, 1);
    }
    ProducerLoad(cfg, s, |s.slots[|s.accepted| % cfg.size].hist| - 1);
  }

  lemma PublishDecides(cfg: Config, s: State, t: Tick)
    requires Proper(cfg) && Inv(cfg, s) && s.ppc.PIdle?
    ensures var s' := PublishHead(cfg, s, t);
      && s'.Run?
      && s'.accepted == s.accepted && s'.consumed == s.consumed && s'.delivered == s.delivered
      && s'.cpc == s.cpc && s'.empties == s.empties
      && s'.outcomes == s.outcomes && s'.dropped == s.dropped
      && s'.ppc == (if |Contents(s)| < cfg.size then PPassed(s.pcur, t) else PRefused(t))
  {
    WordSlot(cfg, |s.accepted|);
    PublishSees(cfg, s);
  }

  lemma PublishHeadInv(cfg: Config, s: State, t: Tick)
    requires Proper(cfg) && Inv(cfg, s)
    ensures Inv(cfg, PublishHead(cfg, s, t))
  {
    PublishStartInv(cfg, s, t);
    var s1 := PublishStart(s, t);
    PublishLoadInv(cfg, s1, Newest(cfg, s1, s.pcur));
  }

  lemma PublishRefuses(cfg: Config, s: State)
    requires s.Run? && s.ppc.PRefused?
    ensures PublishTail(cfg, s) == PublishCountDrop(cfg, s)
  {
  }

  lemma PublishPasses(cfg: Config, s: State)
    requires Proper(cfg) && Inv(cfg, s) && s.ppc.PPassed?
    ensures var w := PublishWrite(cfg, s);
      w.Run? &&
      var r := PublishStore(cfg, w);
      && r.Run? && PublishTail(cfg, s) == PublishFinish(cfg, r)
      && r == s.(slots := r.slots, pview := r.pview, ppc := PStored(s.ppc.cursor, s.ppc.tick),
                 accepted := s.accepted + [s.ppc.tick])
  {
    PublishWriteInv(cfg, s);
    PublishStoreInv(cfg, PublishWrite(cfg, s));
  }

  lemma PublishEnds(cfg: Config, s: State, t: Tick)
    requires Proper(cfg) && Inv(cfg, s)
    requires (s.ppc.PPassed? || s.ppc.PRefused?) && s.ppc.tick == t
    ensures var s' := PublishTail(cfg, s);
      var ok := s.ppc.PPassed?;
      && s'.Run? && s'.ppc.PIdle? && s'.consumed == s.consumed && s'.delivered == s.delivered
      && s'.cpc == s.cpc && s'.empties == s.empties
      && s'.outcomes == s.outcomes + [Outcome(t, ok)]
      && s'.accepted == (if ok then s.accepted + [t] else s.accepted)
      && s'.dropped == (if ok then s.dropped else cfg.Word(s.dropped + 1))
  {
    if s.ppc.PPassed? {
      PublishPasses(cfg, s);
    } else {
      PublishRefuses(cfg, s);
    }
  }

  /** A publish that runs alone from any reachable state, whatever the consumer is
      in the middle of, finishes: if its load is up to date it appends its tick
      exactly when the ring is not full, and otherwise counts one drop. */
  lemma PublishAlone(cfg: Config, s: State, t: Tick)
    requires Proper(cfg) && Inv(cfg, s) && s.ppc.PIdle?
    ensures var s' := PublishTail(cfg, PublishHead(cfg, s, t));
      var ok := |Contents(s)| < cfg.size;
      && s'.Run? && |s'.consumed| <= |s'.accepted| && s'.ppc.PIdle?
      && s'.consumed == s.consumed && s'.delivered == s.delivered && s'.cpc == s.cpc && s'.empties == s.empties
      && s'.outcomes == s.outcomes + [Outcome(t, ok)]
      && Contents(s') == (if ok then Contents(s) + [t] else Contents(s))
      && s'.dropped == (if ok then s.dropped else cfg.Word(s.dropped + 1))
  {
    PublishDecides(cfg, s, t);
    PublishHeadInv(cfg, s, t);
    PublishEnds(cfg, PublishHead(cfg, s, t), t);
  }

  lemma ConsumeSees(cfg: Config, s: State)
    requires Proper(cfg) && Inv(cfg, s)
    ensures var hist := s.slots[|s.consumed| % cfg.size].hist;
      var j := |hist| - 1;
      && hist != [] && Newest(cfg, s, cfg.Word(|s.consumed|)) == j && CanLoad(hist, j, s.cview)
      && (hist[j].val == cfg.Word(|s.consumed| + 1) <==> |s.consumed| < |s.accepted|)
  {
    WordSlot(cfg, |s.consumed|);
    assert SlotOf(cfg, s, |s.consumed|);
    ConsumerLoad(cfg, s, |s.slots[|s.consumed| % cfg.size].hist| - 1);
  }

  /** What the comparison makes of an entry that can be loaded. */
  lemma ConsumeCompares(cfg: Config, s: State, j: nat)
    requires s.Run? && s.cpc.CGot? && cfg.Index(s.cpc.cursor) < |s.slots|
    requires CanLoad(s.slots[cfg.Index(s.cpc.cursor)].hist, j, s.cview)
    ensures var s' := ConsumeLoad(cfg, s, j);
      var passed := s.slots[cfg.Index(s.cpc.cursor)].hist[j].val == cfg.Word(s.cpc.cursor + 1);
      && s'.Run?
      && s'.accepted == s.accepted && s'.consumed == s.consumed && s'.delivered == s.delivered && s'.ppc == s.ppc
      && (if passed then s'.cpc.CPassed? && s'.empties == s.empties
          else s'.cpc.CIdle? && s'.empties == s.empties + 1)
  {
  }

  lemma ConsumeDecides(cfg: Config, s: State)
    requires Proper(cfg) && Inv(cfg, s) && s.cpc.CIdle?
    ensures var s' := ConsumeHead(cfg, s);
      && s'.Run?
      && s'.accepted == s.accepted && s'.consumed == s.consumed && s'.delivered == s.delivered && s'.ppc == s.ppc
      && (if Contents(s) != [] then s'.cpc.CPassed? && s'.empties == s.empties
          else s'.cpc.CIdle? && s'.empties == s.empties + 1)
  {
    WordSlot(cfg, |s.consumed|);
    WordPlus(cfg, |s.consumed|, 1);
    ConsumeSees(cfg, s);
    ConsumeCompares(cfg, ConsumeStart(s), Newest(cfg, s, s.ccur));
  }

  lemma ConsumeHeadInv(cfg: Config, s: State)
    requires Proper(cfg) && Inv(cfg, s)
    ensures Inv(cfg, ConsumeHead(cfg, s))
  {
    ConsumeStartInv(cfg, s);
    var s1 := ConsumeStart(s);
    ConsumeLoadInv(cfg, s1, Newest(cfg, s1, s.ccur));
  }

  lemma ConsumeEnds(cfg: Config, s: State)
    requires Proper(cfg) && Inv(cfg, s) && s.cpc.CPassed?
    ensures var s' := ConsumeTail(cfg, s);
      && |s.consumed| < |s.accepted|
      && s'.Run? && s'.cpc.CIdle? && s'.accepted == s.accepted && s'.empties == s.empties
      && s'.ppc == s.ppc
      && s'.consumed == s.consumed + [s.accepted[|s.consumed|]]
      && s'.delivered == s.delivered + [s.accepted[|s.consumed|]]
  {
    ConsumeReadInv(cfg, s);
    ConsumeStoreInv(cfg, ConsumeRead(cfg, s));
  }

  lemma ConsumeTailIdle(cfg: Config, s: State)
    requires s.Run? && s.cpc.CIdle?
    ensures ConsumeTail(cfg, s) == s
  {
  }

  /** A consume that runs alone with an up-to-date load takes the oldest tick, or
      finds the ring empty. */
  lemma ConsumeAlone(cfg: Config, s: State)
    requires Proper(cfg) && Inv(cfg, s) && s.cpc.CIdle?
    ensures var s' := ConsumeTail(cfg, ConsumeHead(cfg, s));
      && s'.Run? && |s'.consumed| <= |s'.accepted| && s'.cpc.CIdle?
      && s'.accepted == s.accepted && s'.ppc == s.ppc
      && Contents(s') == (if Contents(s) == [] then [] else Contents(s)[1..])
      && s'.delivered == s.delivered + (if Contents(s) == [] then [] else [Contents(s)[0]])
      && s'.empties == s.empties + (if Contents(s) == [] then 1 else 0)
  {
    ConsumeDecides(cfg, s);
    ConsumeHeadInv(cfg, s);
    var s1 := ConsumeHead(cfg, s);
    if Contents(s) == [] {
      ConsumeTailIdle(cfg, s1);
    } else {
      ConsumeEnds(cfg, s1);
    }
  }
}
