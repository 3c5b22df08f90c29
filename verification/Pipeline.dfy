/** The whole pipeline: a producer thread publishing into the ring, and an engine
    thread that consumes ticks and applies them to its book, interleaved at every
    micro-step of the ring. */
module Pipelines {
  import opened Ticks
  import opened Bits
  import opened DeepBook
  import opened Book
  import opened BookRuns
  import opened RingMachine
  import opened RingSafety

  /** `applied` ticks have reached the book.  `batch` is the local counter of a
      `run_batch` in progress, which began at `batchStart`; outside a batch every
      tick is a `run_one`.  `uncounted` collects what the u32 counter of finished
      batches failed to count. */
  datatype Pipe = Pipe(
    ring: State,
    book: BookState,
    applied: nat,
    ticks: u64,
    batch: Option<u32>,
    batchStart: nat,
    uncounted: int)

  datatype PipeAction = RingStep(a: Action) | ApplyHeld | BeginBatch

  function StartPipe(cfg: Config, blank: Tick, b: BookState): Pipe {
    Pipe(Init(cfg, blank), b, 0, 0, None, 0, 0)
  }

  /** A tick was returned by `try_consume` and is not applied yet. */
  predicate Holding(p: Pipe)
    requires p.ring.Run?
  {
    p.applied < |p.ring.delivered|
  }

  /** A batch ends when `try_consume` returns nothing. */
  function EndBatch(p: Pipe): Pipe {
    if p.batch.None? then p
    else
      p.(ticks := WrappingAdd(p.ticks, p.batch.value), batch := None,
         uncounted := p.uncounted + (p.applied - p.batchStart) / TWO_32 * TWO_32)
  }

  function ApplyStep(p: Pipe): Pipe
    requires p.ring.Run?
  {
    if !Holding(p) then p
    else
      var q := p.(book := ApplyTick(p.book, p.ring.delivered[p.applied]).0, applied := p.applied + 1);
      if p.batch.None? then q.(ticks := WrappingAdd(p.ticks, 1))
      else q.(batch := Some((p.batch.value + 1) % TWO_32))
  }

  /** One step of the pipeline.  The engine thread applies the tick it holds
      before it calls `try_consume` again. */
  ghost function DoPipe(cfg: Config, p: Pipe, x: PipeAction): Pipe {
    if p.ring.UB? then p else
    match x
    case RingStep(a) =>
      if a.CStart? && Holding(p) then p
      else
        var r := Do(cfg, p.ring, a);
        var q := p.(ring := r);
        if r.Run? && r.empties > p.ring.empties then EndBatch(q) else q
    case ApplyHeld => ApplyStep(p)
    case BeginBatch =>
      if p.batch.None? && p.ring.cpc.CIdle? && !Holding(p) then p.(batch := Some(0), batchStart := p.applied) else p
  }

  ghost function ExecPipe(cfg: Config, blank: Tick, b: BookState, xs: seq<PipeAction>): Pipe {
    if xs == [] then StartPipe(cfg, blank, b)
    else DoPipe(cfg, ExecPipe(cfg, blank, b, xs[..|xs| - 1]), xs[|xs| - 1])
  }

  ghost predicate FlowInv(cfg: Config, p: Pipe, b: BookState) {
    && Inv(cfg, p.ring)
    && p.applied <= |p.ring.delivered| <= p.applied + 1
    && (Holding(p) ==> p.ring.cpc.CIdle?)
    && p.book == RunTicks(b, p.ring.accepted[..p.applied])
  }

  predicate TicksInv(p: Pipe) {
    && p.batchStart <= p.applied
    && 0 <= p.uncounted <= (if p.batch.None? then p.applied else p.batchStart)
    && p.uncounted % TWO_32 == 0
    && (if p.batch.None? then p.ticks == Word64(p.applied - p.uncounted)
        else p.ticks == Word64(p.batchStart - p.uncounted)
             && p.batch.value == (p.applied - p.batchStart) % TWO_32)
  }

  /** What one ring step can do to the logs the engine looks at. */
  lemma RingStepLogs(cfg: Config, s: State, a: Action)
    requires s.Run? && Do(cfg, s, a).Run?
    ensures var s' := Do(cfg, s, a);
      && s.accepted <= s'.accepted
      && (s'.delivered != s.delivered ==>
            s.cpc.CStored? && s'.cpc.CIdle? && |s'.delivered| == |s.delivered| + 1)
      && (s.cpc.CIdle? && !a.CStart? ==> s'.cpc.CIdle?)
  {
  }

  lemma ApplyFlow(cfg: Config, p: Pipe, b: BookState)
    requires FlowInv(cfg, p, b)
    ensures FlowInv(cfg, ApplyStep(p), b)
  {
    if Holding(p) {
      RunExtended(b, p.ring.accepted, p.applied);
      assert p.ring.delivered[p.applied] == p.ring.accepted[p.applied];
    }
  }

  lemma RingFlow(cfg: Config, p: Pipe, b: BookState, a: Action)
    requires Proper(cfg) && FlowInv(cfg, p, b) && !(a.CStart? && Holding(p))
    ensures FlowInv(cfg, p.(ring := Do(cfg, p.ring, a)), b)
  {
    StepInv(cfg, p.ring, a);
    RingStepLogs(cfg, p.ring, a);
    var r := Do(cfg, p.ring, a);
    assert r.accepted[..p.applied] == p.ring.accepted[..p.applied];
  }

  lemma WholeTurns(k: nat)
    ensures var whole := k / TWO_32 * TWO_32;
      0 <= whole <= k && k == whole + k % TWO_32 && whole % TWO_32 == 0
  {
    ModPlusMultiple(0, TWO_32, k / TWO_32);
  }

  lemma MoreTurns(a: nat, whole: nat)
    requires a % TWO_32 == 0 && whole % TWO_32 == 0
    ensures (a + whole) % TWO_32 == 0
  {
    ReducedSum(a, whole, TWO_32);
  }

  lemma EndBatchTicks(p: Pipe)
    requires TicksInv(p)
    ensures TicksInv(EndBatch(p))
  {
    if p.batch.Some? {
      var k := p.applied - p.batchStart;
      WholeTurns(k);
      MoreTurns(p.uncounted, k / TWO_32 * TWO_32);
      ReducedSum(p.batchStart - p.uncounted, k % TWO_32, TWO_64);
    }
  }

  lemma ApplyTicks(p: Pipe)
    requires TicksInv(p) && p.ring.Run?
    ensures TicksInv(ApplyStep(p))
  {
    if p.batch.None? {
      ReducedSum(p.applied - p.uncounted, 1, TWO_64);
    } else {
      ReducedSum(p.applied - p.batchStart, 1, TWO_32);
    }
  }

  lemma FlowStep(cfg: Config, p: Pipe, b: BookState, x: PipeAction)
    requires Proper(cfg) && FlowInv(cfg, p, b)
    ensures FlowInv(cfg, DoPipe(cfg, p, x), b)
  {
    match x
    case RingStep(a) => if !(a.CStart? && Holding(p)) { RingFlow(cfg, p, b, a); }
    case ApplyHeld => ApplyFlow(cfg, p, b);
    case BeginBatch =>
  }

  lemma TicksStep(cfg: Config, p: Pipe, x: PipeAction)
    requires TicksInv(p)
    ensures TicksInv(DoPipe(cfg, p, x))
  {
    if p.ring.Run? {
      match x
      case RingStep(a) => EndBatchTicks(p.(ring := Do(cfg, p.ring, a)));
      case ApplyHeld => ApplyTicks(p);
      case BeginBatch =>
    }
  }

  lemma {:induction false} FlowHolds(cfg: Config, blank: Tick, b: BookState, xs: seq<PipeAction>)
    requires Proper(cfg)
    ensures FlowInv(cfg, ExecPipe(cfg, blank, b, xs), b)
  {
    if xs == [] {
      InitInv(cfg, blank);
    } else {
      FlowHolds(cfg, blank, b, xs[..|xs| - 1]);
      FlowStep(cfg, ExecPipe(cfg, blank, b, xs[..|xs| - 1]), b, xs[|xs| - 1]);
    }
  }

  lemma {:induction false} TicksHold(cfg: Config, blank: Tick, b: BookState, xs: seq<PipeAction>)
    ensures TicksInv(ExecPipe(cfg, blank, b, xs))
  {
    if xs != [] {
      TicksHold(cfg, blank, b, xs[..|xs| - 1]);
      TicksStep(cfg, ExecPipe(cfg, blank, b, xs[..|xs| - 1]), xs[|xs| - 1]);
    }
  }

  /** The book is the result of applying, in acceptance order, a prefix of the
      accepted ticks, which covers every consumed tick except at most one in
      flight between `try_consume` and `apply`. */
  predicate UpToDate(p: Pipe, b: BookState) {
    && p.ring.Run?
    && p.applied <= |p.ring.consumed| <= p.applied + 1
    && p.ring.consumed <= p.ring.accepted
    && p.book == RunTicks(b, p.ring.accepted[..p.applied])
    && (!Holding(p) && p.ring.cpc.CIdle? ==> p.applied == |p.ring.consumed|)
  }

  lemma FlowUpToDate(cfg: Config, p: Pipe, b: BookState)
    requires FlowInv(cfg, p, b)
    ensures UpToDate(p, b)
  {
  }

  /** End to end: this holds in every reachable state of the pipeline. */
  lemma EndToEnd(cfg: Config, blank: Tick, b: BookState, xs: seq<PipeAction>)
    requires Proper(cfg)
    ensures UpToDate(ExecPipe(cfg, blank, b, xs), b)
  {
    FlowHolds(cfg, blank, b, xs);
    FlowUpToDate(cfg, ExecPipe(cfg, blank, b, xs), b);
  }

  /** Between batches the counter is the number of applied ticks less those that
      batches of 2^32 ticks or more dropped in their u32 counter. */
  predicate TicksTell(p: Pipe) {
    && 0 <= p.uncounted <= p.applied && p.uncounted % TWO_32 == 0
    && (p.batch.None? ==> p.ticks == Word64(p.applied - p.uncounted))
    && (p.batch.None? && p.applied < TWO_32 ==> p.ticks == p.applied)
  }

  lemma TicksInvTells(p: Pipe)
    requires TicksInv(p)
    ensures TicksTell(p)
  {
    if p.applied < TWO_32 {
      assert p.uncounted == 0;
    }
  }

  lemma EngineTicks(cfg: Config, blank: Tick, b: BookState, xs: seq<PipeAction>)
    ensures TicksTell(ExecPipe(cfg, blank, b, xs))
  {
    TicksHold(cfg, blank, b, xs);
    TicksInvTells(ExecPipe(cfg, blank, b, xs));
  }

  lemma WordRemainder(k: nat)
    ensures Word64(k) % TWO_32 == k % TWO_32
  {
    var w, q := Word64(k), k / TWO_64;
    assert k == w + q * TWO_64;
    assert q * TWO_64 == (q * TWO_32) * TWO_32;
    ModPlusMultiple(w, TWO_32, q * TWO_32);
  }

  lemma AddInjective(t: u64, n: u64, w: u64)
    ensures WrappingAdd(t, n) == WrappingAdd(t, w) <==> n == w
  {
    if n != w {
      ReducedDistinct(t + if n < w then n else w, t + if n < w then w else n);
    }
  }

  lemma EndBatchCountsIff(p: Pipe)
    requires TicksInv(p) && p.batch.Some?
    ensures var k := p.applied - p.batchStart;
      EndBatch(p).ticks == WrappingAdd(p.ticks, Word64(k)) <==> Word64(k) < TWO_32
  {
    var k := p.applied - p.batchStart;
    WordRemainder(k);
    AddInjective(p.ticks, p.batch.value, Word64(k));
  }

  /** In every state of the pipeline with a batch in progress: ending it advances the
      counter by the ticks it applied exactly when those are fewer than 2^32, up to
      whole turns of the u64 counter. */
  lemma BatchCountsIff(cfg: Config, blank: Tick, b: BookState, xs: seq<PipeAction>)
    ensures var p := ExecPipe(cfg, blank, b, xs);
      && p.batchStart <= p.applied
      && (p.batch.Some? ==>
            var k := p.applied - p.batchStart;
            EndBatch(p).ticks == WrappingAdd(p.ticks, Word64(k)) <==> Word64(k) < TWO_32)
  {
    TicksHold(cfg, blank, b, xs);
    var p := ExecPipe(cfg, blank, b, xs);
    if p.batch.Some? {
      EndBatchCountsIff(p);
    }
  }

  /** The ticks that have reached the book. */
  ghost function Applied(cfg: Config, blank: Tick, b: BookState, xs: seq<PipeAction>): seq<Tick>
    requires Proper(cfg)
  {
    EndToEnd(cfg, blank, b, xs);
    var p := ExecPipe(cfg, blank, b, xs);
    p.ring.accepted[..p.applied]
  }

  lemma BookOfApplied(cfg: Config, blank: Tick, b: BookState, xs: seq<PipeAction>)
    requires Proper(cfg)
    ensures ExecPipe(cfg, blank, b, xs).book == RunTicks(b, Applied(cfg, blank, b, xs))
  {
    EndToEnd(cfg, blank, b, xs);
  }

  /** From the feed to the top of the book: whatever the schedule, the codes of the
      ticks applied so far tell which levels of a fresh engine's book are exact. */
  lemma PipelineTopExact(
      cfg: Config, blank: Tick, symbol: Symbol, exchange: Exchange, xs: seq<PipeAction>,
      ts: seq<Tick>, side: Side, ranking: seq<Level>)
    requires Proper(cfg)
    requires ts == Applied(cfg, blank, NewBook(symbol, exchange), xs)
    requires IsRanking(Descending(side), Deep(Since(symbol, ts, side)), ranking)
    ensures var b := NewBook(symbol, exchange);
      CodesTell(Codes(b, ts, side), SideOf(ExecPipe(cfg, blank, b, xs).book, side).levels, ranking)
  {
    BookOfApplied(cfg, blank, NewBook(symbol, exchange), xs);
    TopOfSideExact(symbol, exchange, ts, side, ranking);
  }
}
