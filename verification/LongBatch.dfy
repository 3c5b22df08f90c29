/** How long a batch can get: with a producer that keeps up, a single `run_batch`
    applies any number of ticks, and its u32 counter wraps. */
module LongBatches {
  import opened Ticks
  import opened Book
  import opened RingMachine
  import opened RingSafety
  import opened RingTheorems
  import opened RingCalls
  import opened Pipelines

  /** Some schedule leads to this state of the pipeline. */
  ghost predicate Reached(cfg: Config, blank: Tick, b: BookState, p: Pipe) {
    exists xs: seq<PipeAction> :: ExecPipe(cfg, blank, b, xs) == p
  }

  lemma ReachedInv(cfg: Config, blank: Tick, b: BookState, p: Pipe)
    requires Proper(cfg) && Reached(cfg, blank, b, p)
    ensures FlowInv(cfg, p, b) && TicksInv(p)
  {
    var xs: seq<PipeAction> :| ExecPipe(cfg, blank, b, xs) == p;
    FlowHolds(cfg, blank, b, xs);
    TicksHold(cfg, blank, b, xs);
  }

  lemma ReachedNext(cfg: Config, blank: Tick, b: BookState, p: Pipe, x: PipeAction)
    requires Reached(cfg, blank, b, p)
    ensures Reached(cfg, blank, b, DoPipe(cfg, p, x))
  {
    var xs: seq<PipeAction> :| ExecPipe(cfg, blank, b, xs) == p;
    assert (xs + [x])[..|xs|] == xs;
    assert ExecPipe(cfg, blank, b, xs + [x]) == DoPipe(cfg, p, x);
  }

  /** Steps of the ring that neither start nor end a consume call leave the rest of
      the pipeline alone. */
  lemma QuietStep(cfg: Config, blank: Tick, b: BookState, p: Pipe, a: Action)
    requires Reached(cfg, blank, b, p) && !a.CStart? && !a.CLoad?
    ensures Reached(cfg, blank, b, p.(ring := Do(cfg, p.ring, a)))
  {
    ReachedNext(cfg, blank, b, p, RingStep(a));
    assert DoPipe(cfg, p, RingStep(a)) == p.(ring := Do(cfg, p.ring, a));
  }

  /** The engine is inside a batch, between two turns of its loop, with an empty ring. */
  ghost predicate BetweenTurns(p: Pipe) {
    && p.ring.Run? && p.batch.Some?
    && p.ring.ppc.PIdle? && p.ring.cpc.CIdle? && !Holding(p)
    && |p.ring.consumed| == |p.ring.accepted|
  }

  lemma PublishReached(cfg: Config, blank: Tick, b: BookState, p: Pipe, t: Tick)
    requires Reached(cfg, blank, b, p) && p.ring.Run?
    ensures Reached(cfg, blank, b, p.(ring := PublishTail(cfg, PublishHead(cfg, p.ring, t))))
  {
    QuietStep(cfg, blank, b, p, PStart(t));
    var s1 := PublishStart(p.ring, t);
    QuietStep(cfg, blank, b, p.(ring := s1), PLoad(Newest(cfg, s1, p.ring.pcur)));
    var s2 := PublishHead(cfg, p.ring, t);
    QuietStep(cfg, blank, b, p.(ring := s2), PCountDrop);
    var s3 := Do(cfg, s2, PCountDrop);
    QuietStep(cfg, blank, b, p.(ring := s3), PWriteCell);
    var s4 := Do(cfg, s3, PWriteCell);
    QuietStep(cfg, blank, b, p.(ring := s4), PStoreSlot);
    QuietStep(cfg, blank, b, p.(ring := Do(cfg, s4, PStoreSlot)), PStoreCursor);
  }

  lemma ConsumeHeadReached(cfg: Config, blank: Tick, b: BookState, p: Pipe)
    requires Reached(cfg, blank, b, p) && p.ring.Run? && !Holding(p)
    ensures var p' := p.(ring := ConsumeHead(cfg, p.ring));
      Reached(cfg, blank, b, if p'.ring.Run? && p'.ring.empties > p.ring.empties then EndBatch(p') else p')
  {
    ReachedNext(cfg, blank, b, p, RingStep(CStart));
    var p1 := p.(ring := ConsumeStart(p.ring));
    assert DoPipe(cfg, p, RingStep(CStart)) == p1;
    ReachedNext(cfg, blank, b, p1, RingStep(CLoad(Newest(cfg, p1.ring, p.ring.ccur))));
  }

  lemma ConsumeTailReached(cfg: Config, blank: Tick, b: BookState, p: Pipe)
    requires Reached(cfg, blank, b, p)
    ensures Reached(cfg, blank, b, p.(ring := ConsumeTail(cfg, p.ring)))
  {
    QuietStep(cfg, blank, b, p, CReadCell);
    var s1 := Do(cfg, p.ring, CReadCell);
    QuietStep(cfg, blank, b, p.(ring := s1), CStoreSlot);
    QuietStep(cfg, blank, b, p.(ring := Do(cfg, s1, CStoreSlot)), CStoreCursor);
  }

  /** The producer publishes one tick between two turns. */
  lemma TurnPublishes(cfg: Config, blank: Tick, b: BookState, p: Pipe, t: Tick) returns (q: Pipe)
    requires Proper(cfg) && Reached(cfg, blank, b, p) && BetweenTurns(p)
    ensures Reached(cfg, blank, b, q) && q.ring.Run? && q == p.(ring := q.ring)
    ensures q.ring.ppc.PIdle? && q.ring.cpc.CIdle? && !Holding(q)
    ensures |q.ring.accepted| == |q.ring.consumed| + 1
  {
    ReachedInv(cfg, blank, b, p);
    PublishAlone(cfg, p.ring, t);
    PublishReached(cfg, blank, b, p, t);
    q := p.(ring := PublishTail(cfg, PublishHead(cfg, p.ring, t)));
  }

  /** The engine takes it and applies it. */
  lemma TurnConsumes(cfg: Config, blank: Tick, b: BookState, p: Pipe) returns (q: Pipe)
    requires Proper(cfg) && Reached(cfg, blank, b, p) && p.ring.Run? && p.batch.Some?
    requires p.ring.ppc.PIdle? && p.ring.cpc.CIdle? && !Holding(p)
    requires |p.ring.accepted| == |p.ring.consumed| + 1
    ensures Reached(cfg, blank, b, q) && BetweenTurns(q)
    ensures q.applied == p.applied + 1 && q.batchStart == p.batchStart
  {
    ReachedInv(cfg, blank, b, p);
    ConsumeDecides(cfg, p.ring);
    ConsumeAlone(cfg, p.ring);
    ConsumeHeadReached(cfg, blank, b, p);
    var s := ConsumeHead(cfg, p.ring);
    ConsumeTailReached(cfg, blank, b, p.(ring := s));
    var r := p.(ring := ConsumeTail(cfg, s));
    ReachedInv(cfg, blank, b, r);
    ReachedNext(cfg, blank, b, r, ApplyHeld);
    q := ApplyStep(r);
  }

  /** For every k there is a schedule with a batch in progress, begun at the first
      tick, that has applied k ticks. */
  lemma {:induction false} LongBatch(cfg: Config, blank: Tick, b: BookState, t: Tick, k: nat) returns (p: Pipe)
    requires Proper(cfg)
    ensures Reached(cfg, blank, b, p) && BetweenTurns(p) && p.applied == k && p.batchStart == 0
  {
    if k == 0 {
      var start := StartPipe(cfg, blank, b);
      assert ExecPipe(cfg, blank, b, []) == start;
      ReachedNext(cfg, blank, b, start, BeginBatch);
      p := DoPipe(cfg, start, BeginBatch);
    } else {
      p := LongBatch(cfg, blank, b, t, k - 1);
      p := TurnPublishes(cfg, blank, b, p, t);
      p := TurnConsumes(cfg, blank, b, p);
    }
  }

  lemma BatchEnds(cfg: Config, blank: Tick, b: BookState, p: Pipe)
    requires Proper(cfg) && Reached(cfg, blank, b, p) && BetweenTurns(p)
    ensures var q := EndBatch(p.(ring := ConsumeHead(cfg, p.ring)));
      Reached(cfg, blank, b, q) && q.ring.Run? && q.ring.accepted == p.ring.accepted && Contents(p.ring) == []
  {
    ReachedInv(cfg, blank, b, p);
    ConsumeDecides(cfg, p.ring);
    ConsumeHeadReached(cfg, blank, b, p);
  }

  lemma FirstBatchTicks(p: Pipe)
    requires TicksInv(p) && p.batch.Some? && p.batchStart == 0
    ensures EndBatch(p).ticks == p.applied % TWO_32
  {
  }

  /** For every k there is a run in which one batch, from the start to its end,
      applies k ticks and leaves the engine's counter at k modulo 2^32. */
  lemma BatchCountWraps(cfg: Config, blank: Tick, b: BookState, t: Tick, k: nat) returns (xs: seq<PipeAction>)
    requires Proper(cfg)
    ensures var p := ExecPipe(cfg, blank, b, xs);
      p.ring.Run? && p.batch.None? && p.applied == k && p.ticks == k % TWO_32
  {
    var p := LongBatch(cfg, blank, b, t, k);
    BatchEnds(cfg, blank, b, p);
    var r := p.(ring := ConsumeHead(cfg, p.ring));
    ReachedInv(cfg, blank, b, p);
    FirstBatchTicks(r);
    xs :| ExecPipe(cfg, blank, b, xs) == EndBatch(r);
  }

  /** So a batch of exactly 2^32 ticks is not counted at all. */
  lemma LongBatchUncounted(cfg: Config, blank: Tick, b: BookState, t: Tick) returns (xs: seq<PipeAction>)
    requires Proper(cfg)
    ensures var p := ExecPipe(cfg, blank, b, xs);
      p.ring.Run? && p.batch.None? && p.applied == TWO_32 && p.ticks == 0
  {
    xs := BatchCountWraps(cfg, blank, b, t, TWO_32);
  }
}
