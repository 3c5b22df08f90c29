/** Powers of two, the bit mask that selects a ring slot, and the few facts
    about remainders that the ring protocol rests on. */
module Bits {
  import opened Ticks

  function Pow2(k: nat): (r: nat)
    ensures r >= 1
  {
    if k == 0 then 1 else 2 * Pow2(k - 1)
  }

  /** Bitwise conjunction of two naturals, bit by bit. */
  function And(x: nat, m: nat): nat {
    if x == 0 || m == 0 then 0
    else (if x % 2 == 1 && m % 2 == 1 then 1 else 0) + 2 * And(x / 2, m / 2)
  }

  lemma MulAtLeast(d: int, n: int)
    requires d >= 1 && n >= 1
    ensures d * n >= n
  {
    assert (d - 1) * n >= 0;
  }

  lemma SmallMultiple(d: int, n: int)
    requires -n < d * n < n
    ensures d == 0
  {
    if d >= 1 {
      MulAtLeast(d, n);
    } else if d <= -1 {
      assert (-d) * n == -(d * n);
      MulAtLeast(-d, n);
    }
  }

  lemma ModUnique(x: int, n: int, q: int, r: int)
    requires 0 <= r < n
    requires x == q * n + r
    ensures x % n == r
  {
    assert x == n * (x / n) + x % n;
    assert (q - x / n) * n == x % n - r;
    SmallMultiple(q - x / n, n);
  }

  lemma ModPlusMultiple(x: nat, n: nat, q: nat)
    requires n > 0
    ensures (x + q * n) % n == x % n
  {
    assert x + q * n == (x / n + q) * n + x % n;
    ModUnique(x + q * n, n, x / n + q, x % n);
  }

  /** Two cursors less than one lap apart never share a slot. */
  lemma ModInjective(a: nat, b: nat, n: nat)
    requires n > 0 && a < b < a + n
    ensures a % n != b % n
  {
    if a % n == b % n {
      assert a == n * (a / n) + a % n && b == n * (b / n) + b % n;
      assert (b / n - a / n) * n == b - a;
      SmallMultiple(b / n - a / n, n);
    }
  }

  /** Masking with 2^k - 1 is taking the remainder modulo 2^k. */
  lemma {:induction false} MaskIsMod(x: nat, k: nat)
    ensures And(x, Pow2(k) - 1) == x % Pow2(k)
  {
    if k == 0 {
      ModUnique(x, 1, x, 0);
    } else {
      MaskIsMod(x / 2, k - 1);
      MaskStep(x, Pow2(k - 1));
    }
  }

  lemma {:induction false} MaskStep(x: nat, h: nat)
    requires h >= 1 && And(x / 2, h - 1) == (x / 2) % h
    ensures And(x, 2 * h - 1) == x % (2 * h)
  {
    var y, b := x / 2, x % 2;
    AndOdd(y, b, h - 1);
    DoubledMod(y, h, b);
    assert x == 2 * y + b && 2 * h - 1 == 2 * (h - 1) + 1;
  }

  lemma {:induction false} AndOdd(y: nat, b: nat, n: nat)
    requires b < 2
    ensures And(2 * y + b, 2 * n + 1) == b + 2 * And(y, n)
  {
    var x, m := 2 * y + b, 2 * n + 1;
    assert x % 2 == b && x / 2 == y && m % 2 == 1 && m / 2 == n;
  }

  lemma DoubledMod(y: nat, h: nat, b: nat)
    requires h > 0 && b < 2
    ensures (2 * y + b) % (2 * h) == 2 * (y % h) + b
  {
    assert y == h * (y / h) + y % h;
    assert 2 * (h * (y / h)) == (y / h) * (2 * h);
    ModUnique(2 * y + b, 2 * h, y / h, 2 * (y % h) + b);
  }

  lemma {:induction false} PowSum(a: nat, b: nat)
    ensures Pow2(a + b) == Pow2(a) * Pow2(b)
  {
    if a > 0 {
      PowSum(a - 1, b);
      assert Pow2(a + b) == 2 * (Pow2(a - 1) * Pow2(b));
    }
  }

  lemma Pow2Of32()
    ensures Pow2(32) == TWO_32
  {
    assert Pow2(4) == 16;
    PowSum(4, 4);
    PowSum(8, 8);
    PowSum(16, 16);
  }

  lemma Pow2Bounds()
    ensures Pow2(63) == TWO_64 / 2 && Pow2(64) == TWO_64
  {
    Pow2Of32();
    PowSum(32, 32);
    assert Pow2(64) == 2 * Pow2(63);
  }

  lemma RingFits(k: nat)
    requires k < 64
    ensures Pow2(k) <= TWO_64 / 2
  {
    PowSum(63 - k, k);
    Pow2Bounds();
    MulAtLeast(Pow2(63 - k), Pow2(k));
  }

  lemma ReducedMod(x: nat, m: nat, n: nat)
    requires n > 0 && m * n == TWO_64
    ensures (x % TWO_64) % n == x % n
  {
    var q, r := x / TWO_64, x % TWO_64;
    assert x == r + q * TWO_64;
    assert q * (m * n) == (q * m) * n;
    assert q * m >= 0;
    ModPlusMultiple(r, n, q * m);
  }

  /** A ring of 2^k slots divides the u64 range evenly, so reducing a cursor
      modulo 2^64 does not change its slot. */
  lemma ReducedSlot(x: nat, k: nat)
    requires k < 64
    ensures (x % TWO_64) % Pow2(k) == x % Pow2(k)
  {
    PowSum(64 - k, k);
    Pow2Bounds();
    ReducedMod(x, Pow2(64 - k), Pow2(k));
  }

  /** Adding to a reduced value and reducing again is reducing the sum. */
  lemma ReducedSum(n: nat, d: nat, m: nat)
    requires m > 0
    ensures (n % m + d) % m == (n + d) % m
  {
    assert n + d == (n % m + d) + (n / m) * m;
    ModPlusMultiple(n % m + d, m, n / m);
  }

  lemma NextWord(n: nat)
    ensures WrappingAdd(Word64(n), 1) == Word64(n + 1)
  {
    ReducedSum(n, 1, TWO_64);
  }

  lemma LaterWord(n: nat, d: nat)
    ensures Word64(Word64(n) + d) == Word64(n + d)
  {
    ReducedSum(n, d, TWO_64);
  }

  /** Distinct values less than 2^64 apart stay distinct modulo 2^64. */
  lemma ReducedDistinct(a: nat, b: nat)
    requires a < b < a + TWO_64
    ensures a % TWO_64 != b % TWO_64
  {
  }
}
