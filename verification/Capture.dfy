/** Capture files: a tick is written as its 64 bytes, and read back through a
    reader that may receive any chunk of the file at a time. */
module Capture {
  import opened Ticks
  import opened Bits
  import opened Book

  const TICK_SIZE: nat := 64

  // ----- little-endian words

  function LittleEndian(x: nat, width: nat): (bs: seq<u8>)
    ensures |bs| == width
  {
    if width == 0 then [] else [x % 256] + LittleEndian(x / 256, width - 1)
  }

  function FromLittleEndian(bs: seq<u8>): nat {
    if bs == [] then 0 else bs[0] + 256 * FromLittleEndian(bs[1..])
  }

  lemma {:induction false} ReadsBackWord(x: nat, width: nat)
    requires x < Pow2(8 * width)
    ensures FromLittleEndian(LittleEndian(x, width)) == x
  {
    if width > 0 {
      PowOfBytes(width - 1);
      ReadsBackWord(x / 256, width - 1);
      var bs := LittleEndian(x, width);
      assert bs[1..] == LittleEndian(x / 256, width - 1);
    }
  }

  lemma LowByte(b: u8, y: nat)
    ensures (b + 256 * y) % 256 == b && (b + 256 * y) / 256 == y
  {
  }

  lemma {:induction false} WritesBackWord(bs: seq<u8>)
    ensures LittleEndian(FromLittleEndian(bs), |bs|) == bs
    ensures FromLittleEndian(bs) < Pow2(8 * |bs|)
  {
    if bs != [] {
      WritesBackWord(bs[1..]);
      PowOfBytes(|bs| - 1);
      LowByte(bs[0], FromLittleEndian(bs[1..]));
      assert bs == [bs[0]] + bs[1..];
    }
  }

  lemma PowOfBytes(n: nat)
    ensures Pow2(8 * (n + 1)) == 256 * Pow2(8 * n)
  {
    assert Pow2(4) == 16;
    PowSum(4, 4);
    PowSum(8, 8 * n);
  }

  lemma WordWidths()
    ensures Pow2(8 * 8) == TWO_64 && Pow2(8 * 4) == TWO_32
  {
    Pow2Of32();
    Pow2Bounds();
  }

  function ReadU64(bs: seq<u8>): (x: u64)
    requires |bs| == 8
  {
    WritesBackWord(bs);
    WordWidths();
    FromLittleEndian(bs)
  }

  function ReadU32(bs: seq<u8>): (x: u32)
    requires |bs| == 4
  {
    WritesBackWord(bs);
    WordWidths();
    FromLittleEndian(bs)
  }

  // ----- the record layout

  function ExchangeByte(e: Exchange): u8 {
    match e case Binance => 0 case Bybit => 1 case Hyperliquid => 2
  }

  function SideByte(s: Side): u8 {
    match s case Bid => 0 case Ask => 1
  }

  /** The four single-byte fields. */
  function Flags(t: Tick): (bs: seq<u8>)
    ensures |bs| == 4
  {
    [ExchangeByte(t.exchange), SideByte(t.side), if t.isSnapshot then 1 else 0, t.pad]
  }

  /** The fields in declaration order, without gaps. */
  function Layout(
      price: seq<u8>, qty: seq<u8>, sequence: seq<u8>, tsExchange: seq<u8>, tsRecv: seq<u8>,
      symbol: seq<u8>, flags: seq<u8>, snapshotId: seq<u8>): seq<u8>
  {
    price + qty + sequence + tsExchange + tsRecv + symbol + flags + snapshotId
  }

  /** The 64 bytes of a tick in memory, on a little-endian machine. */
  function Encode(t: Tick): (bs: seq<u8>)
    ensures |bs| == TICK_SIZE
  {
    Layout(LittleEndian(t.price, 8), LittleEndian(t.qty, 8), LittleEndian(t.sequence, 8),
           LittleEndian(t.tsExchange, 8), LittleEndian(t.tsRecv, 8), t.symbol, Flags(t),
           LittleEndian(t.snapshotId, 4))
  }

  datatype Field = ExchangeField | SideField | IsSnapshotField

  datatype ReadError =
    | Truncated(got: nat)
    | Corrupt(field: Field, value: u8)
    | IoFailure

  datatype Record = Good(tick: Tick) | Bad(error: ReadError)

  /** The three fields with restricted bit patterns, checked in this order. */
  function ValidateRecord(bs: seq<u8>): Option<ReadError>
    requires |bs| == TICK_SIZE
  {
    if bs[56] > 2 then Some(Corrupt(ExchangeField, bs[56]))
    else if bs[57] > 1 then Some(Corrupt(SideField, bs[57]))
    else if bs[58] > 1 then Some(Corrupt(IsSnapshotField, bs[58]))
    else None
  }

  function Decode(bs: seq<u8>): Tick
    requires |bs| == TICK_SIZE && ValidateRecord(bs).None?
  {
    Tick(ReadU64(bs[0..8]), ReadU64(bs[8..16]), ReadU64(bs[16..24]), ReadU64(bs[24..32]), ReadU64(bs[32..40]),
         bs[40..56],
         if bs[56] == 0 then Binance else if bs[56] == 1 then Bybit else Hyperliquid,
         if bs[57] == 0 then Bid else Ask,
         bs[58] == 1,
         bs[59],
         ReadU32(bs[60..64]))
  }

  function DecodeRecord(bs: seq<u8>): Record
    requires |bs| == TICK_SIZE
  {
    var e := ValidateRecord(bs);
    if e.Some? then Bad(e.value) else Good(Decode(bs))
  }

  /** Cutting a record at its field offsets returns the pieces it was made of. */
  lemma Pieces(a: seq<u8>, b: seq<u8>, c: seq<u8>, d: seq<u8>, e: seq<u8>, sym: seq<u8>, flags: seq<u8>, id: seq<u8>)
    requires |a| == |b| == |c| == |d| == |e| == 8 && |sym| == 16 && |flags| == |id| == 4
    ensures var bs := Layout(a, b, c, d, e, sym, flags, id);
      && |bs| == TICK_SIZE
      && bs[0..8] == a && bs[8..16] == b && bs[16..24] == c && bs[24..32] == d && bs[32..40] == e
      && bs[40..56] == sym && bs[60..64] == id
      && bs[56] == flags[0] && bs[57] == flags[1] && bs[58] == flags[2] && bs[59] == flags[3]
  {
  }

  lemma ReadsBackU64(x: u64)
    ensures ReadU64(LittleEndian(x, 8)) == x
  {
    WordWidths();
    ReadsBackWord(x, 8);
  }

  lemma ReadsBackU32(x: u32)
    ensures ReadU32(LittleEndian(x, 4)) == x
  {
    WordWidths();
    ReadsBackWord(x, 4);
  }

  /** Reading back what was written returns the tick, bit for bit. */
  lemma DecodesEncoded(t: Tick)
    ensures DecodeRecord(Encode(t)) == Good(t)
  {
    Pieces(LittleEndian(t.price, 8), LittleEndian(t.qty, 8), LittleEndian(t.sequence, 8),
           LittleEndian(t.tsExchange, 8), LittleEndian(t.tsRecv, 8), t.symbol, Flags(t),
           LittleEndian(t.snapshotId, 4));
    ReadsBackU64(t.price);
    ReadsBackU64(t.qty);
    ReadsBackU64(t.sequence);
    ReadsBackU64(t.tsExchange);
    ReadsBackU64(t.tsRecv);
    ReadsBackU32(t.snapshotId);
  }

  // ----- the record, byte by byte

  lemma DivideTwice(x: nat, b: nat)
    requires b > 0
    ensures (x / 256) / b == x / (256 * b)
  {
    var y := x / 256;
    var q, r := y / b, (y % b) * 256 + x % 256;
    assert y == b * q + y % b && x == 256 * y + x % 256;
    assert 256 * (b * q) == q * (256 * b);
    DivUnique(x, 256 * b, q, r);
  }

  lemma DivUnique(x: int, n: int, q: int, r: int)
    requires 0 <= r < n && x == q * n + r
    ensures x / n == q
  {
    ModUnique(x, n, q, r);
    assert (x / n - q) * n == 0;
    SmallMultiple(x / n - q, n);
  }

  lemma {:induction false} LittleEndianByte(x: nat, width: nat, i: nat)
    requires i < width
    ensures LittleEndian(x, width)[i] == (x / Pow2(8 * i)) % 256
  {
    if i == 0 {
      assert Pow2(8 * i) == 1;
    } else {
      LittleEndianByte(x / 256, width - 1, i - 1);
      PowOfBytes(i - 1);
      DivideTwice(x, Pow2(8 * (i - 1)));
    }
  }

  /** The bytes of a word, least significant first. */
  ghost predicate IsWord(bytes: seq<u8>, x: nat) {
    forall i :: 0 <= i < |bytes| ==> bytes[i] == (x / Pow2(8 * i)) % 256
  }

  lemma WordBytes(x: nat, width: nat)
    ensures IsWord(LittleEndian(x, width), x)
  {
    forall i | 0 <= i < width ensures LittleEndian(x, width)[i] == (x / Pow2(8 * i)) % 256 {
      LittleEndianByte(x, width, i);
    }
  }

  /** What is at each offset of a recorded tick. */
  ghost predicate IsImage(bs: seq<u8>, t: Tick) {
    && |bs| == 64
    && IsWord(bs[0..8], t.price) && IsWord(bs[8..16], t.qty) && IsWord(bs[16..24], t.sequence)
    && IsWord(bs[24..32], t.tsExchange) && IsWord(bs[32..40], t.tsRecv)
    && bs[40..56] == t.symbol
    && bs[56] == (match t.exchange case Binance => 0 case Bybit => 1 case Hyperliquid => 2)
    && bs[57] == (match t.side case Bid => 0 case Ask => 1)
    && bs[58] == (if t.isSnapshot then 1 else 0)
    && bs[59] == t.pad
    && IsWord(bs[60..64], t.snapshotId)
  }

  lemma EncodedBytes(t: Tick)
    ensures IsImage(Encode(t), t)
  {
    Pieces(LittleEndian(t.price, 8), LittleEndian(t.qty, 8), LittleEndian(t.sequence, 8),
           LittleEndian(t.tsExchange, 8), LittleEndian(t.tsRecv, 8), t.symbol, Flags(t),
           LittleEndian(t.snapshotId, 4));
    WordBytes(t.price, 8);
    WordBytes(t.qty, 8);
    WordBytes(t.sequence, 8);
    WordBytes(t.tsExchange, 8);
    WordBytes(t.tsRecv, 8);
    WordBytes(t.snapshotId, 4);
  }

  /** The reader accepts a record exactly when the three restricted bytes are in
      range, and then returns the tick whose image it is; otherwise the error names
      the first bad field and its value. */
  lemma DecodeMeans(bs: seq<u8>)
    requires |bs| == 64
    ensures var r := DecodeRecord(bs);
      && (bs[56] <= 2 && bs[57] <= 1 && bs[58] <= 1 ==> r.Good? && IsImage(bs, r.tick))
      && (bs[56] > 2 ==> r == Bad(Corrupt(ExchangeField, bs[56])))
      && (bs[56] <= 2 && bs[57] > 1 ==> r == Bad(Corrupt(SideField, bs[57])))
      && (bs[56] <= 2 && bs[57] <= 1 && bs[58] > 1 ==> r == Bad(Corrupt(IsSnapshotField, bs[58])))
  {
    if bs[56] <= 2 && bs[57] <= 1 && bs[58] <= 1 {
      EncodesDecoded(bs);
      EncodedBytes(Decode(bs));
    }
  }

  lemma WritesBackU64(bs: seq<u8>)
    requires |bs| == 8
    ensures LittleEndian(ReadU64(bs), 8) == bs
  {
    WritesBackWord(bs);
  }

  lemma WritesBackU32(bs: seq<u8>)
    requires |bs| == 4
    ensures LittleEndian(ReadU32(bs), 4) == bs
  {
    WritesBackWord(bs);
  }

  /** Putting a record's pieces together again returns the record. */
  lemma Joined(bs: seq<u8>, a: seq<u8>, b: seq<u8>, c: seq<u8>, d: seq<u8>, e: seq<u8>, sym: seq<u8>, flags: seq<u8>, id: seq<u8>)
    requires |bs| == TICK_SIZE
    requires a == bs[0..8] && b == bs[8..16] && c == bs[16..24] && d == bs[24..32] && e == bs[32..40]
    requires sym == bs[40..56] && flags == bs[56..60] && id == bs[60..64]
    ensures Layout(a, b, c, d, e, sym, flags, id) == bs
  {
    assert bs == bs[..8] + bs[8..];
    assert bs == bs[..16] + bs[16..] && bs[..16] == a + b;
    assert bs == bs[..24] + bs[24..] && bs[..24] == a + b + c;
    assert bs[..32] == a + b + c + d;
    assert bs[..40] == a + b + c + d + e;
    assert bs[..56] == a + b + c + d + e + sym;
    assert bs[..60] == a + b + c + d + e + sym + flags;
  }

  /** The words and flags of a decoded tick encode to the bytes they came from. */
  lemma DecodedPieces(bs: seq<u8>)
    requires |bs| == TICK_SIZE && ValidateRecord(bs).None?
    ensures var t := Decode(bs);
      && LittleEndian(t.price, 8) == bs[0..8] && LittleEndian(t.qty, 8) == bs[8..16]
      && LittleEndian(t.sequence, 8) == bs[16..24] && LittleEndian(t.tsExchange, 8) == bs[24..32]
      && LittleEndian(t.tsRecv, 8) == bs[32..40] && LittleEndian(t.snapshotId, 4) == bs[60..64]
  {
    WritesBackU64(bs[0..8]);
    WritesBackU64(bs[8..16]);
    WritesBackU64(bs[16..24]);
    WritesBackU64(bs[24..32]);
    WritesBackU64(bs[32..40]);
    WritesBackU32(bs[60..64]);
  }

  lemma DecodedFlags(bs: seq<u8>)
    requires |bs| == TICK_SIZE && ValidateRecord(bs).None?
    ensures Flags(Decode(bs)) == bs[56..60] && Decode(bs).symbol == bs[40..56]
  {
  }

  /** Every record that passes validation is the encoding of the tick it decodes
      to: no two records read as the same tick. */
  lemma EncodesDecoded(bs: seq<u8>)
    requires |bs| == TICK_SIZE && ValidateRecord(bs).None?
    ensures Encode(Decode(bs)) == bs
  {
    DecodedPieces(bs);
    var t := Decode(bs);
    DecodedFlags(bs);
    Joined(bs, LittleEndian(t.price, 8), LittleEndian(t.qty, 8), LittleEndian(t.sequence, 8),
           LittleEndian(t.tsExchange, 8), LittleEndian(t.tsRecv, 8), t.symbol, Flags(t), LittleEndian(t.snapshotId, 4));
  }

  // ----- the stream of records

  /** A file cut into pieces of 64 bytes, the last one possibly shorter. */
  function Chunks(file: seq<u8>): seq<seq<u8>> {
    if file == [] then []
    else if |file| < TICK_SIZE then [file]
    else [file[..TICK_SIZE]] + Chunks(file[TICK_SIZE..])
  }

  function ChunkRecord(chunk: seq<u8>): Record {
    if |chunk| == TICK_SIZE then DecodeRecord(chunk) else Bad(Truncated(|chunk|))
  }

  function Decoded(chunks: seq<seq<u8>>): (rs: seq<Record>)
    ensures |rs| == |chunks| && forall i :: 0 <= i < |chunks| ==> rs[i] == ChunkRecord(chunks[i])
  {
    seq(|chunks|, i requires 0 <= i < |chunks| => ChunkRecord(chunks[i]))
  }

  /** The records of a file: one for each piece. */
  function Records(file: seq<u8>): seq<Record> {
    Decoded(Chunks(file))
  }

  /** What one `next` call finds in the rest of a file. */
  function NextRecord(rest: seq<u8>): Option<Record> {
    if rest == [] then None
    else if |rest| < TICK_SIZE then Some(Bad(Truncated(|rest|)))
    else Some(DecodeRecord(rest[..TICK_SIZE]))
  }

  function Skip(rest: seq<u8>): seq<u8> {
    if |rest| < TICK_SIZE then [] else rest[TICK_SIZE..]
  }

  /** Iterating `next` until it returns nothing yields the records of the file. */
  lemma IterationYieldsRecords(rest: seq<u8>)
    ensures Records(rest) ==
      match NextRecord(rest)
      case None => []
      case Some(r) => [r] + Records(Skip(rest))
  {
    if |rest| >= TICK_SIZE {
      DecodedConcat([rest[..TICK_SIZE]], Chunks(rest[TICK_SIZE..]));
    }
  }

  lemma DecodedConcat(cs: seq<seq<u8>>, ds: seq<seq<u8>>)
    ensures Decoded(cs + ds) == Decoded(cs) + Decoded(ds)
  {
  }

  /** The bytes a recorder writes for a run of ticks. */
  function EncodeAll(ts: seq<Tick>): seq<u8> {
    if ts == [] then [] else EncodeAll(ts[..|ts| - 1]) + Encode(ts[|ts| - 1])
  }

  function AllGood(ts: seq<Tick>): (rs: seq<Record>)
    ensures |rs| == |ts| && forall i :: 0 <= i < |ts| ==> rs[i] == Good(ts[i])
  {
    seq(|ts|, i requires 0 <= i < |ts| => Good(ts[i]))
  }

  /** A whole record in front is the first one found, and leaves the rest aligned. */
  lemma RecordFirst(first: seq<u8>, rest: seq<u8>)
    requires |first| == TICK_SIZE
    ensures Records(first + rest) == [DecodeRecord(first)] + Records(rest)
  {
    IterationYieldsRecords(first + rest);
    assert (first + rest)[..TICK_SIZE] == first && (first + rest)[TICK_SIZE..] == rest;
  }

  lemma AllGoodAppended(ts: seq<Tick>, t: Tick)
    ensures AllGood(ts + [t]) == AllGood(ts) + [Good(t)]
  {
  }

  lemma Regrouped<T>(a: seq<T>, b: seq<T>, c: seq<T>)
    ensures (a + b) + c == a + (b + c)
  {
  }

  /** Recorded ticks come back first, in order, and leave the rest aligned. */
  lemma {:induction false} RecordsOfEncoded(ts: seq<Tick>, rest: seq<u8>)
    ensures Records(EncodeAll(ts) + rest) == AllGood(ts) + Records(rest)
  {
    if ts == [] {
      assert EncodeAll(ts) + rest == rest;
    } else {
      var prefix, t := ts[..|ts| - 1], ts[|ts| - 1];
      RecordsOfEncoded(prefix, Encode(t) + rest);
      Regrouped(EncodeAll(prefix), Encode(t), rest);
      RecordFirst(Encode(t), rest);
      DecodesEncoded(t);
      Regrouped(AllGood(prefix), [Good(t)], Records(rest));
      AllGoodAppended(prefix, t);
      assert prefix + [t] == ts;
    }
  }

  /** A capture cut r bytes into a record yields its whole records, one truncation
      error that names r, and then nothing. */
  lemma TruncatedCapture(ts: seq<Tick>, tail: seq<u8>)
    requires 0 < |tail| < TICK_SIZE
    ensures Records(EncodeAll(ts) + tail) == AllGood(ts) + [Bad(Truncated(|tail|))]
  {
    RecordsOfEncoded(ts, tail);
    assert Chunks(tail) == [tail];
  }

  /** A corrupt record yields one error and the records after it are read as if
      it were not there. */
  lemma CorruptRecordIsolated(ts: seq<Tick>, bad: seq<u8>, rest: seq<u8>)
    requires |bad| == TICK_SIZE && ValidateRecord(bad).Some?
    ensures Records(EncodeAll(ts) + (bad + rest))
      == AllGood(ts) + [Bad(ValidateRecord(bad).value)] + Records(rest)
  {
    RecordsOfEncoded(ts, bad + rest);
    RecordFirst(bad, rest);
    Regrouped(AllGood(ts), [Bad(ValidateRecord(bad).value)], Records(rest));
  }

  function GoodTicks(rs: seq<Record>): seq<Tick> {
    if rs == [] then []
    else (if rs[0].Good? then [rs[0].tick] else []) + GoodTicks(rs[1..])
  }

  lemma {:induction false} GoodTicksOfAllGood(ts: seq<Tick>)
    ensures GoodTicks(AllGood(ts)) == ts
  {
    if ts != [] {
      GoodTicksOfAllGood(ts[1..]);
      assert AllGood(ts)[1..] == AllGood(ts[1..]);
    }
  }

  lemma CaptureReadsBack(ts: seq<Tick>)
    ensures GoodTicks(Records(EncodeAll(ts))) == ts
  {
    RecordsOfEncoded(ts, []);
    assert EncodeAll(ts) + [] == EncodeAll(ts);
    assert Records(EncodeAll(ts)) == AllGood(ts);
    GoodTicksOfAllGood(ts);
  }

  lemma EncodeAllAppended(ts: seq<Tick>, t: Tick)
    ensures EncodeAll(ts + [t]) == EncodeAll(ts) + Encode(t)
  {
    assert (ts + [t])[..|ts|] == ts;
  }

  /** What is written for us after ts is what is written for both in one session. */
  predicate Joins(ts: seq<Tick>, us: seq<Tick>) {
    EncodeAll(ts) + EncodeAll(us) == EncodeAll(ts + us)
  }

  lemma JoinsAppended(ts: seq<Tick>, us: seq<Tick>, t: Tick)
    requires Joins(ts, us)
    ensures Joins(ts, us + [t])
  {
    EncodeAllAppended(us, t);
    EncodeAllAppended(ts + us, t);
    Regrouped(EncodeAll(ts), EncodeAll(us), Encode(t));
    Regrouped(ts, us, [t]);
  }

  lemma {:induction false} EncodeAllConcat(ts: seq<Tick>, us: seq<Tick>)
    ensures Joins(ts, us)
  {
    if us == [] {
      assert ts + us == ts;
    } else {
      EncodeAllConcat(ts, us[..|us| - 1]);
      JoinsAppended(ts, us[..|us| - 1], us[|us| - 1]);
      assert us[..|us| - 1] + [us[|us| - 1]] == us;
    }
  }

  lemma ReopenedReadsBack(older: seq<Tick>, ts: seq<Tick>)
    ensures GoodTicks(Records(EncodeAll(older) + EncodeAll(ts))) == older + ts
  {
    EncodeAllConcat(older, ts);
    CaptureReadsBack(older + ts);
  }

  /** Replaying a capture into a fresh book reproduces the book of the session;
      when the recorder was reopened on an older capture, that of both sessions. */
  lemma ReplayReproduces(b: BookState, older: seq<Tick>, ts: seq<Tick>)
    ensures RunTicks(b, GoodTicks(Records(EncodeAll(ts)))) == RunTicks(b, ts)
    ensures RunTicks(b, GoodTicks(Records(EncodeAll(older) + EncodeAll(ts)))) == RunTicks(RunTicks(b, older), ts)
  {
    CaptureReadsBack(ts);
    ReopenedReadsBack(older, ts);
    RunConcat(b, older, ts);
  }

  // ----- the recorder and the reader

  /** Appends to a capture; `older` is what the file held when it was opened. */
  class TickRecorder {
    var out: seq<u8>
    ghost const older: seq<u8>
    ghost var session: seq<Tick>

    ghost predicate Valid()
      reads this
    {
      out == older + EncodeAll(session)
    }

    constructor (older: seq<u8>)
      ensures Valid() && this.older == older && session == []
    {
      out := older;
      this.older, session := older, [];
    }

    method Record(t: Tick)
      requires Valid()
      modifies this
      ensures Valid() && session == old(session) + [t]
      ensures out == old(out) + Encode(t)
    {
      EncodeAllAppended(session, t);
      out := out + Encode(t);
      session := session + [t];
    }
  }

  /** What the operating system does on one read: deliver up to n bytes, report an
      interrupted call, or fail.  A read delivers at least one byte unless the file
      is at its end. */
  datatype ReadEvent = Chunk(n: nat) | Interrupted | Failure

  datatype ReadOutcome = Delivered(n: nat) | WasInterrupted | Failed

  class TickReader {
    const data: seq<u8>
    var pos: nat
    var schedule: seq<ReadEvent>

    ghost predicate Valid()
      reads this
    {
      pos <= |data|
    }

    ghost function Rest(): seq<u8>
      requires Valid()
      reads this
    {
      data[pos..]
    }

    constructor (data: seq<u8>, schedule: seq<ReadEvent>)
      ensures Valid() && Rest() == data && this.schedule == schedule
    {
      this.data, this.schedule, pos := data, schedule, 0;
    }

    /** Copy the next n bytes of the file into buf[got..]. */
    method Take(buf: array<u8>, got: nat, n: nat)
      requires Valid() && got + n <= buf.Length && n <= |Rest()|
      modifies this`pos, buf
      ensures Valid() && buf[..got] == old(buf[..got])
      ensures buf[got..got + n] == old(Rest())[..n] && Rest() == old(Rest())[n..]
    {
      var i := got;
      while i < got + n
        invariant got <= i <= got + n
        invariant forall k :: 0 <= k < got ==> buf[k] == old(buf[k])
        invariant forall k :: got <= k < i ==> buf[k] == data[pos + k - got]
        modifies buf
      {
        buf[i] := data[pos + i - got];
        i := i + 1;
      }
      forall k | 0 <= k < n ensures buf[got..got + n][k] == data[pos..][..n][k] {
        assert buf[got + k] == data[pos + k];
      }
      pos := pos + n;
    }

    /** One `read` call into buf[got..]: it uses up the next event of the schedule,
        and reports an interruption or a failure exactly when that event is one. */
    method Read(buf: array<u8>, got: nat) returns (r: ReadOutcome)
      requires Valid() && got < buf.Length
      modifies this, buf
      ensures Valid() && buf[..got] == old(buf[..got])
      ensures schedule == if old(schedule) == [] then [] else old(schedule)[1..]
      ensures r.Failed? <==> old(schedule) != [] && old(schedule)[0].Failure?
      ensures r.WasInterrupted? <==> old(schedule) != [] && old(schedule)[0].Interrupted?
      ensures !r.Delivered? ==> Rest() == old(Rest())
      ensures r.Delivered? ==>
        && r.n == ReadSize(old(schedule), buf.Length - got, |old(Rest())|)
        && buf[got..got + r.n] == old(Rest())[..r.n]
        && Rest() == old(Rest())[r.n..]
    {
      var n := ReadSize(schedule, buf.Length - got, |data| - pos);
      if schedule != [] {
        var e := schedule[0];
        schedule := schedule[1..];
        match e {
          case Interrupted => return WasInterrupted;
          case Failure => return Failed;
          case Chunk(_) =>
        }
      }
      Take(buf, got, n);
      return Delivered(n);
    }

    /** The first `got` bytes of `rest` are in the buffer, the others still to be read. */
    ghost predicate Copied(buf: array<u8>, got: nat, rest: seq<u8>)
      requires Valid() && got <= buf.Length
      reads this, buf
    {
      got <= |rest| && buf[..got] == rest[..got] && Rest() == rest[got..]
    }

    lemma CopiedMore(buf: array<u8>, got: nat, n: nat, rest: seq<u8>)
      requires Valid() && got + n <= buf.Length && got + n <= |rest|
      requires buf[..got] == rest[..got] && buf[got..got + n] == rest[got..][..n] && Rest() == rest[got..][n..]
      ensures Copied(buf, got + n, rest)
    {
      assert buf[..got + n] == buf[..got] + buf[got..got + n];
      assert rest[..got + n] == rest[..got] + rest[got..][..n];
    }

    /** One turn of the reading loop of `next`. */
    method FillMore(buf: array<u8>, got: nat, ghost rest: seq<u8>) returns (now: nat, more: bool, ok: bool)
      requires Valid() && got < buf.Length && Copied(buf, got, rest)
      modifies this, buf
      ensures Valid() && got <= now <= buf.Length && Copied(buf, now, rest)
      ensures !ok ==> now == got
      ensures more ==> ok && now < buf.Length && |Rest()| + |schedule| < |old(Rest())| + |old(schedule)|
      ensures ok && !more ==> now == buf.Length || now == |rest|
      ensures FailsNow(FailsWithin(buf.Length - got, |rest| - got, old(schedule)),
                       ok, more, buf.Length - now, |rest| - now, schedule)
      ensures schedule == if old(schedule) == [] then [] else old(schedule)[1..]
    {
      var outcome := Read(buf, got);
      match outcome {
        case Delivered(n) =>
          CopiedMore(buf, got, n, rest);
          return got + n, n > 0 && got + n < buf.Length, true;
        case WasInterrupted => return got, true, true;
        case Failed => return got, false, false;
      }
    }

    /** The reading loop: fill the buffer, unless the file ends before or a read fails. */
    method Fill(buf: array<u8>) returns (got: nat, ok: bool)
      requires Valid() && buf.Length == TICK_SIZE
      modifies this, buf
      ensures Valid() && got <= TICK_SIZE && Copied(buf, got, old(Rest()))
      ensures ok <==> !FailsWithin(TICK_SIZE, |old(Rest())|, old(schedule))
      ensures ok ==> got == TICK_SIZE || got == |old(Rest())|
      ensures !ok ==> got < TICK_SIZE && |schedule| < |old(schedule)|
      ensures |schedule| <= |old(schedule)| && forall e :: e in schedule ==> e in old(schedule)
    {
      ghost var rest := Rest();
      ghost var fails := FailsWithin(TICK_SIZE, |rest|, schedule);
      got, ok := 0, true;
      var more := true;
      while more
        invariant Valid() && got <= TICK_SIZE && Copied(buf, got, rest)
        invariant more ==> ok && got < TICK_SIZE
        invariant FailsNow(fails, ok, more, TICK_SIZE - got, |rest| - got, schedule)
        invariant ok && !more ==> got == TICK_SIZE || got == |rest|
        invariant !ok ==> got < TICK_SIZE && |schedule| < |old(schedule)|
        invariant |schedule| <= |old(schedule)| && forall e :: e in schedule ==> e in old(schedule)
        decreases |Rest()| + |schedule|, more
      {
        got, more, ok := FillMore(buf, got, rest);
      }
    }

    /** The next record, or the read error if a read fails before it is complete.
        Otherwise the chunk sizes and the interruptions do not show. */
    method Next() returns (r: Option<Record>)
      requires Valid()
      modifies this
      ensures Valid()
      ensures var fails := FailsWithin(TICK_SIZE, |old(Rest())|, old(schedule));
        && r == (if fails then Some(Bad(IoFailure)) else NextRecord(old(Rest())))
        && (!fails ==> Rest() == Skip(old(Rest())))
        && (fails ==>
              && |schedule| < |old(schedule)|
              && exists lost: nat :: lost < TICK_SIZE && lost <= |old(Rest())| && Rest() == old(Rest())[lost..])
      ensures |schedule| <= |old(schedule)| && forall e :: e in schedule ==> e in old(schedule)
    {
      ghost var rest := Rest();
      var buf := new u8[TICK_SIZE](_ => 0);
      var got, ok := Fill(buf);
      if !ok {
        return Some(Bad(IoFailure));
      }
      if got == 0 {
        return None;
      }
      if got != TICK_SIZE {
        return Some(Bad(Truncated(got)));
      }
      assert buf[..] == buf[..got] == rest[..TICK_SIZE];
      return Some(DecodeRecord(buf[..]));
    }

    /** Iterating to the end of the file: for every schedule of chunk sizes and
        interruptions it yields exactly the records of the file. */
    method Collect() returns (rs: seq<Record>)
      requires Valid()
      modifies this
      ensures Valid()
      ensures Failure !in old(schedule) ==> rs == Records(old(Rest())) && Rest() == []
    {
      rs := [];
      ghost var all := Records(Rest());
      ghost var before := Rest();
      NoFailure(TICK_SIZE, |before|, schedule);
      var r := Next();
      Begun(before);
      while r.Some?
        invariant Valid()
        invariant Failure !in old(schedule) ==> Failure !in schedule && Yielding(all, rs, r, Rest())
        decreases |schedule| + |Rest()|, r.Some?
      {
        before := Rest();
        Yielded(all, rs, r.value, before);
        NoFailure(TICK_SIZE, |before|, schedule);
        rs := rs + [r.value];
        r := Next();
      }
    }
  }

  /** How much one read delivers when asked for up to `limit` bytes of which `left`
      remain; an exhausted schedule delivers all it can. */
  function ReadSize(schedule: seq<ReadEvent>, limit: nat, left: nat): (n: nat)
    ensures n <= limit && n <= left
    ensures limit > 0 && left > 0 ==> n > 0
  {
    var asked :=
      if schedule == [] || !schedule[0].Chunk? then limit
      else if schedule[0].n == 0 then 1 else schedule[0].n;
    var most := if limit < left then limit else left;
    if asked < most then asked else most
  }

  /** A read fails before `want` more bytes have come, or the file has ended. */
  predicate FailsWithin(want: nat, left: nat, schedule: seq<ReadEvent>)
    decreases |schedule|
  {
    want > 0 && schedule != [] &&
    match schedule[0]
    case Failure => true
    case Interrupted => FailsWithin(want, left, schedule[1..])
    case Chunk(_) =>
      var n := ReadSize(schedule, want, left);
      n > 0 && FailsWithin(want - n, left - n, schedule[1..])
  }

  /** The loop fails if it has failed, or goes on and fails later. */
  predicate FailsNow(fails: bool, ok: bool, more: bool, want: nat, left: nat, schedule: seq<ReadEvent>) {
    fails <==> !ok || (more && FailsWithin(want, left, schedule))
  }

  lemma {:induction false} NoFailure(want: nat, left: nat, schedule: seq<ReadEvent>)
    ensures Failure !in schedule ==> !FailsWithin(want, left, schedule)
    decreases |schedule|
  {
    if schedule != [] {
      NoFailure(want, left, schedule[1..]);
      var n := ReadSize(schedule, want, left);
      NoFailure(want - n, left - n, schedule[1..]);
    }
  }

  /** `all` is what was collected, the record at hand, and the records of the rest. */
  predicate Yielding(all: seq<Record>, rs: seq<Record>, r: Option<Record>, rest: seq<u8>) {
    match r
    case Some(x) => all == rs + ([x] + Records(rest))
    case None => all == rs && rest == []
  }

  lemma Begun(rest: seq<u8>)
    ensures Yielding(Records(rest), [], NextRecord(rest), Skip(rest))
  {
    IterationYieldsRecords(rest);
  }

  lemma Yielded(all: seq<Record>, rs: seq<Record>, x: Record, rest: seq<u8>)
    ensures Yielding(all, rs, Some(x), rest) ==> Yielding(all, rs + [x], NextRecord(rest), Skip(rest))
  {
    IterationYieldsRecords(rest);
    Regrouped(rs, [x], Records(rest));
  }
}
