/** The compile-time check on RING_SIZE admits a ring of one slot.  There
    `cursor + 1` and `cursor + RING_SIZE` are the same word, so the producer
    takes an unread slot for a released one. */
module RingOfOne {
  import opened Ticks
  import opened RingMachine
  import opened RingSafety
  import opened RingTheorems

  /** Publish twice, then consume with a load that returns the first publish. */
  function Collision(t: Tick): seq<Action> {
    [PStart(t), PLoad(0), PWriteCell, PStoreSlot, PStoreCursor,
     PStart(t), PLoad(1), PWriteCell, PStoreSlot, CStart, CLoad(1), CReadCell]
  }

  lemma {:induction false} ExecFrom(cfg: Config, blank: Tick, acts: seq<Action>, n: nat)
    requires n < |acts|
    ensures Exec(cfg, blank, acts[..n + 1]) == Do(cfg, Exec(cfg, blank, acts[..n]), acts[n])
  {
    assert acts[..n + 1] == acts[..n] + [acts[n]];
    ExecAppended(cfg, blank, acts[..n], acts[n]);
  }

  /** From a state of the one-slot ring whose slot looks writable, four
      micro-steps publish. */
  lemma PublishSteps(cfg: Config, s: State, t: Tick, j: nat)
    requires cfg.size == 1 && s.Run? && s.ppc.PIdle? && |s.slots| == 1
    requires |s.slots[0].hist| == j + 1 && s.slots[0].hist[j].val == s.pcur
    requires s.slots[0].hist[j].at.Leq(s.pview) && s.slots[0].lastRead <= s.pview.c
    ensures var s' := Do(cfg, Do(cfg, Do(cfg, Do(cfg, s, PStart(t)), PLoad(j)), PWriteCell), PStoreSlot);
      var view := Clock(s.pview.p + 2, s.pview.c);
      s' == s.(slots := [Slot(s.slots[0].hist + [Msg(cfg.Word(s.pcur + 1), view)], t, s.pview.p + 1, s.slots[0].lastRead)],
               ppc := PStored(s.pcur, t), pview := view, accepted := s.accepted + [t], started := s.started + 1)
  {
    assert cfg.Index(s.pcur) == 0;
    var s1 := Do(cfg, s, PStart(t));
    var s2 := Do(cfg, s1, PLoad(j));
    assert s2 == s1.(ppc := PPassed(s.pcur, t));
    var s3 := Do(cfg, s2, PWriteCell);
    assert s3.slots == [Slot(s.slots[0].hist, t, s.pview.p + 1, s.slots[0].lastRead)];
    var s4 := Do(cfg, s3, PStoreSlot);
    assert s4.slots == [Slot(s.slots[0].hist + [Msg(cfg.Word(s.pcur + 1), s4.pview)], t, s.pview.p + 1, s.slots[0].lastRead)];
  }

  lemma FourSteps(cfg: Config, blank: Tick, acts: seq<Action>, n: nat)
    requires n + 4 <= |acts|
    ensures Exec(cfg, blank, acts[..n + 4])
      == Do(cfg, Do(cfg, Do(cfg, Do(cfg, Exec(cfg, blank, acts[..n]), acts[n]), acts[n + 1]), acts[n + 2]), acts[n + 3])
  {
    ExecFrom(cfg, blank, acts, n);
    ExecFrom(cfg, blank, acts, n + 1);
    ExecFrom(cfg, blank, acts, n + 2);
    ExecFrom(cfg, blank, acts, n + 3);
  }

  lemma FirstPublish(cfg: Config, blank: Tick, t: Tick)
    requires cfg.size == 1
    ensures var s := Exec(cfg, blank, Collision(t)[..5]);
      && s.Run? && s.accepted == [t] && s.consumed == [] && s.pview == Clock(2, 0)
      && |s.slots| == 1 && s.slots[0] == Slot([Msg(0, ORIGIN), Msg(1, Clock(2, 0))], t, 1, 0)
      && s.pcur == 1 && s.ccur == 0 && s.ppc.PIdle? && s.cpc.CIdle? && s.cview == ORIGIN
  {
    var acts := Collision(t);
    var s0 := Exec(cfg, blank, acts[..0]);
    assert s0.slots == [Slot([Msg(0, ORIGIN)], blank, 0, 0)];
    FourSteps(cfg, blank, acts, 0);
    PublishSteps(cfg, s0, t, 0);
    ExecFrom(cfg, blank, acts, 4);
    assert [Msg(0, ORIGIN)] + [Msg(1, Clock(2, 0))] == [Msg(0, ORIGIN), Msg(1, Clock(2, 0))];
  }

  /** The second publish is accepted although the first tick is unread, so two
      ticks are outstanding in one slot. */
  lemma OneSlotOverfills(cfg: Config, blank: Tick, t: Tick)
    requires cfg.size == 1
    ensures var s := Exec(cfg, blank, Collision(t)[..9]);
      && s.Run? && s.accepted == [t, t] && s.consumed == []
      && |s.slots| == 1
      && s.slots[0] == Slot([Msg(0, ORIGIN), Msg(1, Clock(2, 0)), Msg(2, Clock(4, 0))], t, 3, 0)
      && s.ccur == 0 && s.cpc.CIdle? && s.cview == ORIGIN
  {
    var acts := Collision(t);
    FirstPublish(cfg, blank, t);
    FourSteps(cfg, blank, acts, 5);
    PublishSteps(cfg, Exec(cfg, blank, acts[..5]), t, 1);
    var m0, m1, m2 := Msg(0, ORIGIN), Msg(1, Clock(2, 0)), Msg(2, Clock(4, 0));
    assert [m0, m1] + [m2] == [m0, m1, m2];
  }

  /** The consumer's read then races with the second write. */
  lemma OneSlotCollides(cfg: Config, blank: Tick, t: Tick)
    requires cfg.size == 1
    ensures Exec(cfg, blank, Collision(t)).UB?
  {
    var acts := Collision(t);
    OneSlotOverfills(cfg, blank, t);
    ExecFrom(cfg, blank, acts, 9);
    ExecFrom(cfg, blank, acts, 10);
    var s11 := Exec(cfg, blank, acts[..11]);
    assert cfg.Index(0) == 0;
    assert CanLoad(s11.slots[0].hist, 1, ORIGIN);
    ExecFrom(cfg, blank, acts, 11);
    assert acts[..12] == acts;
  }

  /** Among the ring sizes the code admits, exactly those of two slots or more are free of
      undefined behaviour on every schedule. */
  lemma SafeIffTwoSlots(cfg: Config, blank: Tick)
    requires cfg.Valid()
    ensures (forall acts: seq<Action> :: Exec(cfg, blank, acts).Run?) <==> cfg.size >= 2
  {
    if cfg.size >= 2 {
      forall acts: seq<Action> ensures Exec(cfg, blank, acts).Run? {
        Reachable(cfg, blank, acts);
      }
    } else {
      OneSlotCollides(cfg, blank, blank);
    }
  }
}
