/** The value types every other module shares: machine integers as bounded
    mathematical integers, ticks, levels and result codes. */
module Ticks {
  const TWO_64: int := 0x1_0000_0000_0000_0000
  const TWO_32: int := 0x1_0000_0000
  const MAX_LEVELS: nat := 64
  const NO_SNAPSHOT: u32 := 0xFFFF_FFFF

  type u8 = x: int | 0 <= x < 0x100
  type u32 = x: int | 0 <= x < TWO_32
  type u64 = x: int | 0 <= x < TWO_64

  type Symbol = s: seq<u8> | |s| == 16 witness seq(16, _ => 0)

  datatype Option<+T> = None | Some(value: T)

  datatype Exchange = Binance | Bybit | Hyperliquid

  datatype Side = Bid | Ask

  datatype Tick = Tick(
    price: u64,
    qty: u64,
    sequence: u64,
    tsExchange: u64,
    tsRecv: u64,
    symbol: Symbol,
    exchange: Exchange,
    side: Side,
    isSnapshot: bool,
    pad: u8,
    snapshotId: u32)

  datatype Level = Level(price: u64, qty: u64)

  datatype DeltaResult = Updated | Inserted | Removed | InsertedEvicted | NoOp | Discarded

  /** The u64 word that holds a count. */
  function Word64(n: nat): u64 {
    n % TWO_64
  }

  /** Machine addition on u64: what `wrapping_add` computes, and what `+=` computes in a release build. */
  function WrappingAdd(a: u64, b: u64): u64 {
    (a + b) % TWO_64
  }
}
