/** The single-producer single-consumer ring as a machine of atomic micro-steps.

    Each call of `try_publish` or `try_consume` is cut at every access to shared
    memory, and a schedule interleaves the two threads' steps in any order.
    Memory follows the release/acquire fragment of the C++20 model: a slot's
    sequence word is its whole modification history, every release store carries
    the storing thread's vector clock, and an acquire load may return any entry
    that is not hidden by a later entry which happens before the load.  A data
    race on a tick cell, or a store that the model would let land behind an
    entry the storing thread has not seen, sends the machine to `UB`.

    The same definition serves the code, whose cursors wrap at 2^64, and the
    idealised protocol, whose cursors never do: see `Config.wrapping`. */
module RingMachine {
  import opened Ticks
  import opened Bits

  type Positive = n: nat | n >= 1 witness 1

  /** `size` is RING_SIZE. */
  datatype Config = Config(size: Positive, wrapping: bool) {
    /** What the compile-time check on RING_SIZE asks of a usize. */
    ghost predicate Valid() {
      exists k: nat :: k < 64 && size == Pow2(k)
    }

    /** The machine word that holds the unbounded value x. */
    function Word(x: nat): (w: nat) {
      if wrapping then x % TWO_64 else x
    }

    /** The slot of a cursor; `MaskIsIndex` shows that masking computes it. */
    function Index(x: nat): (i: nat)
      ensures i < size
    {
      x % size
    }
  }

  lemma MaskIsIndex(cfg: Config, cursor: nat)
    requires cfg.Valid()
    ensures And(cursor, cfg.size - 1) == cfg.Index(cursor)
  {
    var k: nat :| k < 64 && cfg.size == Pow2(k);
    MaskIsMod(cursor, k);
  }

  /** Vector clock: how many events of each thread are known to have happened. */
  datatype Clock = Clock(p: nat, c: nat) {
    predicate Leq(that: Clock) {
      p <= that.p && c <= that.c
    }

    function Join(that: Clock): Clock {
      Clock(if p < that.p then that.p else p, if c < that.c then that.c else c)
    }
  }

  /** One entry of a sequence word's modification history. */
  datatype Msg = Msg(val: nat, at: Clock)

  /** A slot: the history of its sequence word, the tick cell, and the clock
      stamps of the last producer write and the last consumer read of the cell. */
  datatype Slot = Slot(hist: seq<Msg>, tick: Tick, lastWrite: nat, lastRead: nat)

  datatype ProducerPc =
    | PIdle
    | PGot(cursor: nat, tick: Tick)
    | PRefused(tick: Tick)
    | PPassed(cursor: nat, tick: Tick)
    | PWrote(cursor: nat, tick: Tick)
    | PStored(cursor: nat, tick: Tick)

  datatype ConsumerPc =
    | CIdle
    | CGot(cursor: nat)
    | CPassed(cursor: nat)
    | CRead(cursor: nat, tick: Tick)
    | CStored(cursor: nat, tick: Tick)

  /** A finished call of `try_publish` and what it returned. */
  datatype Outcome = Outcome(tick: Tick, ok: bool)

  /** `pcur`, `ccur` and `dropped` are the three counters of the ring; the last
      six fields are the history of the run: ticks in the order of their
      publishing and releasing stores, ticks returned by `try_consume`, how many
      publish calls were started, how each finished one ended, and how many
      consume calls came back empty. */
  datatype State =
    | UB
    | Run(
        slots: seq<Slot>,
        pcur: nat,
        ccur: nat,
        dropped: nat,
        ppc: ProducerPc,
        cpc: ConsumerPc,
        pview: Clock,
        cview: Clock,
        accepted: seq<Tick>,
        consumed: seq<Tick>,
        delivered: seq<Tick>,
        started: nat,
        outcomes: seq<Outcome>,
        empties: nat)

  /** A micro-step.  The argument of a load names the history entry it returns. */
  datatype Action =
    | PStart(tick: Tick)
    | PLoad(entry: nat)
    | PCountDrop
    | PWriteCell
    | PStoreSlot
    | PStoreCursor
    | CStart
    | CLoad(entry: nat)
    | CReadCell
    | CStoreSlot
    | CStoreCursor

  const ORIGIN := Clock(0, 0)

  function Init(cfg: Config, blank: Tick): State {
    Run(seq(cfg.size, i requires 0 <= i < cfg.size => Slot([Msg(i, ORIGIN)], blank, 0, 0)),
        0, 0, 0, PIdle, CIdle, ORIGIN, ORIGIN, [], [], [], 0, [], 0)
  }

  /** An acquire load by a thread with the given clock may return entry j. */
  ghost predicate CanLoad(hist: seq<Msg>, j: nat, view: Clock) {
    j < |hist| && forall k :: j < k < |hist| ==> !hist[k].at.Leq(view)
  }

  predicate NewestSeen(hist: seq<Msg>, view: Clock) {
    hist != [] && hist[|hist| - 1].at.Leq(view)
  }

  // The micro-steps of `try_publish`.  A step its thread is not ready for
  // leaves the state alone.

  /** Load the own cursor. */
  function PublishStart(s: State, t: Tick): State
    requires s.Run?
  {
    if s.ppc.PIdle? then s.(ppc := PGot(s.pcur, t), started := s.started + 1) else s
  }

  /** Load the slot's sequence word and compare it with the cursor. */
  ghost function PublishLoad(cfg: Config, s: State, j: nat): State
    requires s.Run?
  {
    if !s.ppc.PGot? then s
    else
      var i := cfg.Index(s.ppc.cursor);
      if i < |s.slots| && CanLoad(s.slots[i].hist, j, s.pview) then
        var m := s.slots[i].hist[j];
        s.(pview := s.pview.Join(m.at),
           ppc := if m.val == s.ppc.cursor then PPassed(s.ppc.cursor, s.ppc.tick) else PRefused(s.ppc.tick))
      else s
  }

  function PublishCountDrop(cfg: Config, s: State): State
    requires s.Run?
  {
    if !s.ppc.PRefused? then s
    else s.(dropped := cfg.Word(s.dropped + 1), ppc := PIdle,
            outcomes := s.outcomes + [Outcome(s.ppc.tick, false)])
  }

  /** Write the tick cell: a race unless the last read of it happens before. */
  function PublishWrite(cfg: Config, s: State): State
    requires s.Run?
  {
    if !s.ppc.PPassed? then s
    else
      var i := cfg.Index(s.ppc.cursor);
      if i >= |s.slots| || s.slots[i].lastRead > s.pview.c then UB
      else
        var now := s.pview.p + 1;
        s.(slots := s.slots[i := s.slots[i].(tick := s.ppc.tick, lastWrite := now)],
           pview := s.pview.(p := now), ppc := PWrote(s.ppc.cursor, s.ppc.tick))
  }

  /** Release store of `cursor + 1` into the slot's sequence word. */
  function PublishStore(cfg: Config, s: State): State
    requires s.Run?
  {
    if !s.ppc.PWrote? then s
    else
      var i := cfg.Index(s.ppc.cursor);
      if i >= |s.slots| || !NewestSeen(s.slots[i].hist, s.pview) then UB
      else
        var view := s.pview.(p := s.pview.p + 1);
        var m := Msg(cfg.Word(s.ppc.cursor + 1), view);
        s.(slots := s.slots[i := s.slots[i].(hist := s.slots[i].hist + [m])],
           pview := view, ppc := PStored(s.ppc.cursor, s.ppc.tick), accepted := s.accepted + [s.ppc.tick])
  }

  /** Advance the own cursor and return true. */
  function PublishFinish(cfg: Config, s: State): State
    requires s.Run?
  {
    if !s.ppc.PStored? then s
    else s.(pcur := cfg.Word(s.ppc.cursor + 1), ppc := PIdle,
            outcomes := s.outcomes + [Outcome(s.ppc.tick, true)])
  }

  // The micro-steps of `try_consume`.

  /** Load the own cursor. */
  function ConsumeStart(s: State): State
    requires s.Run?
  {
    if s.cpc.CIdle? then s.(cpc := CGot(s.ccur)) else s
  }

  /** Load the slot's sequence word and compare it with `cursor + 1`. */
  ghost function ConsumeLoad(cfg: Config, s: State, j: nat): State
    requires s.Run?
  {
    if !s.cpc.CGot? then s
    else
      var i := cfg.Index(s.cpc.cursor);
      if i < |s.slots| && CanLoad(s.slots[i].hist, j, s.cview) then
        var m := s.slots[i].hist[j];
        var passed := m.val == cfg.Word(s.cpc.cursor + 1);
        s.(cview := s.cview.Join(m.at),
           cpc := if passed then CPassed(s.cpc.cursor) else CIdle,
           empties := if passed then s.empties else s.empties + 1)
      else s
  }

  /** Read the tick cell: a race unless the last write of it happens before. */
  function ConsumeRead(cfg: Config, s: State): State
    requires s.Run?
  {
    if !s.cpc.CPassed? then s
    else
      var i := cfg.Index(s.cpc.cursor);
      if i >= |s.slots| || s.slots[i].lastWrite > s.cview.p then UB
      else
        var now := s.cview.c + 1;
        s.(slots := s.slots[i := s.slots[i].(lastRead := now)],
           cview := s.cview.(c := now), cpc := CRead(s.cpc.cursor, s.slots[i].tick))
  }

  /** Release store of `cursor + RING_SIZE` into the slot's sequence word. */
  function ConsumeStore(cfg: Config, s: State): State
    requires s.Run?
  {
    if !s.cpc.CRead? then s
    else
      var i := cfg.Index(s.cpc.cursor);
      if i >= |s.slots| || !NewestSeen(s.slots[i].hist, s.cview) then UB
      else
        var view := s.cview.(c := s.cview.c + 1);
        var m := Msg(cfg.Word(s.cpc.cursor + cfg.size), view);
        s.(slots := s.slots[i := s.slots[i].(hist := s.slots[i].hist + [m])],
           cview := view, cpc := CStored(s.cpc.cursor, s.cpc.tick), consumed := s.consumed + [s.cpc.tick])
  }

  /** Advance the own cursor and return the tick. */
  function ConsumeFinish(cfg: Config, s: State): State
    requires s.Run?
  {
    if !s.cpc.CStored? then s
    else s.(ccur := cfg.Word(s.cpc.cursor + 1), cpc := CIdle, delivered := s.delivered + [s.cpc.tick])
  }

  /** One micro-step. */
  ghost function Do(cfg: Config, s: State, a: Action): State {
    if s.UB? then UB else
    match a
    case PStart(t) => PublishStart(s, t)
    case PLoad(j) => PublishLoad(cfg, s, j)
    case PCountDrop => PublishCountDrop(cfg, s)
    case PWriteCell => PublishWrite(cfg, s)
    case PStoreSlot => PublishStore(cfg, s)
    case PStoreCursor => PublishFinish(cfg, s)
    case CStart => ConsumeStart(s)
    case CLoad(j) => ConsumeLoad(cfg, s, j)
    case CReadCell => ConsumeRead(cfg, s)
    case CStoreSlot => ConsumeStore(cfg, s)
    case CStoreCursor => ConsumeFinish(cfg, s)
  }

  /** The state a schedule leads to; every sequence of micro-steps is a schedule. */
  ghost function Exec(cfg: Config, blank: Tick, acts: seq<Action>): State {
    if acts == [] then Init(cfg, blank)
    else Do(cfg, Exec(cfg, blank, acts[..|acts| - 1]), acts[|acts| - 1])
  }
}
