/** Fixed-width machine words as natural numbers.

    A C unsigned word is a `nat` below a power of two, and bit `k` of it is `Bit(x, k)`.
    Every operator the driver uses on words (`&`, `|`, `^`, `~`, `<<`, `>>` and the narrowing
    casts) is defined digit by digit, and its contract says what it does to each bit. */
module Bits {

  const UINT32_MAX: nat := 0xFFFF_FFFF
  const W32: nat := 0x1_0000_0000

  type byte = x: nat | x < 256
  type uint16 = x: nat | x < 0x1_0000
  type uint32 = x: nat | x < 0x1_0000_0000

  // ----- products, quotients and remainders -----

  lemma Distributes(a: nat, b: nat, m: nat)
    ensures (a + b) * m == a * m + b * m
  {
  }

  lemma Quotient(x: nat, m: nat)
    requires m > 0
    ensures x == (x / m) * m + x % m && x % m < m
  {
  }

  lemma ProductGrows(a: nat, b: nat, m: nat)
    requires a <= b
    ensures a * m <= b * m
  {
    Distributes(a, b - a, m);
  }

  lemma NextMultiple(k: nat, m: nat)
    ensures (k + 1) * m == k * m + m
  {
  }

  /** Quotient and remainder are the only ones. */
  lemma DivModUnique(x: nat, m: nat, q: nat, r: nat)
    requires m > 0 && r < m && x == q * m + r
    ensures x / m == q && x % m == r
  {
    var k := x / m;
    Quotient(x, m);
    if k < q {
      ProductGrows(k + 1, q, m);
      NextMultiple(k, m);
    } else if q < k {
      ProductGrows(q + 1, k, m);
      NextMultiple(q, m);
    }
  }

  /** Whole multiples do not change a remainder. */
  lemma SkipMultiples(k: nat, m: nat, y: nat)
    requires m > 0
    ensures (k * m + y) % m == y % m
  {
    Quotient(y, m);
    Distributes(k, y / m, m);
    DivModUnique(k * m + y, m, k + y / m, y % m);
  }

  // ----- powers of two and single bits -----

  function Pow2(n: nat): (p: nat)
    ensures p > 0
  {
    if n == 0 then 1 else 2 * Pow2(n - 1)
  }

  predicate Bit(x: nat, k: nat)
    decreases k
  {
    if k == 0 then x % 2 == 1 else Bit(x / 2, k - 1)
  }

  /** C `x & y` */
  function And(x: nat, y: nat): (r: nat)
    ensures forall k: nat :: Bit(r, k) == (Bit(x, k) && Bit(y, k))
    ensures r <= x && r <= y
  {
    if x == 0 || y == 0 then ZeroBits(); 0 else
      var h := And(x / 2, y / 2);
      var b := if x % 2 == 1 && y % 2 == 1 then 1 else 0;
      assert (2 * h + b) / 2 == h;
      2 * h + b
  }

  /** C `x | y` */
  function Or(x: nat, y: nat): (r: nat)
    ensures forall k: nat :: Bit(r, k) == (Bit(x, k) || Bit(y, k))
  {
    if x == 0 && y == 0 then ZeroBits(); 0 else
      var h := Or(x / 2, y / 2);
      var b := if x % 2 == 1 || y % 2 == 1 then 1 else 0;
      assert (2 * h + b) / 2 == h;
      2 * h + b
  }

  /** C `x ^ y` */
  function Xor(x: nat, y: nat): (r: nat)
    ensures forall k: nat :: Bit(r, k) == (Bit(x, k) != Bit(y, k))
  {
    if x == 0 && y == 0 then ZeroBits(); 0 else
      var h := Xor(x / 2, y / 2);
      var b := if x % 2 != y % 2 then 1 else 0;
      assert (2 * h + b) / 2 == h;
      2 * h + b
  }

  /** C `x << n`, before any narrowing. */
  function Shl(x: nat, n: nat): (r: nat)
    ensures forall k: nat :: Bit(r, k) == (k >= n && Bit(x, k - n))
    decreases n
  {
    if n == 0 then x else
      var h := Shl(x, n - 1);
      assert (2 * h) / 2 == h;
      2 * h
  }

  /** C `x >> n` */
  function Shr(x: nat, n: nat): (r: nat)
    ensures forall k: nat :: Bit(r, k) == Bit(x, k + n)
    ensures r <= x
    decreases n
  {
    if n == 0 then x else Shr(x / 2, n - 1)
  }

  /** The narrowing cast of `x` to an `n`-bit unsigned type. */
  function Trunc(x: nat, n: nat): (r: nat)
    ensures forall k: nat :: Bit(r, k) == (k < n && Bit(x, k))
    ensures r < Pow2(n) && r <= x
    decreases n
  {
    if n == 0 then ZeroBits(); 0 else
      var h := Trunc(x / 2, n - 1);
      assert (2 * h + x % 2) / 2 == h;
      2 * h + x % 2
  }

  /** C `~x` on an `n`-bit type. */
  function Not(x: nat, n: nat): (r: nat)
    ensures forall k: nat :: Bit(r, k) == (k < n && !Bit(x, k))
    ensures r < Pow2(n)
    decreases n
  {
    if n == 0 then ZeroBits(); 0 else
      var h := Not(x / 2, n - 1);
      assert (2 * h + (1 - x % 2)) / 2 == h;
      2 * h + (1 - x % 2)
  }

  /** C `(1 << n) - 1` */
  function Ones(n: nat): (r: nat)
    ensures forall k: nat :: Bit(r, k) == (k < n)
    ensures r == Pow2(n) - 1
  {
    if n == 0 then ZeroBits(); 0 else
      var h := Ones(n - 1);
      assert (2 * h + 1) / 2 == h;
      2 * h + 1
  }

  lemma {:induction false} ZeroBit(k: nat)
    ensures !Bit(0, k)
  {
    if k == 0 {
    } else {
      ZeroBit(k - 1);
    }
  }

  lemma ZeroBits()
    ensures forall k: nat :: !Bit(0, k)
  {
    forall k: nat ensures !Bit(0, k) { ZeroBit(k); }
  }

  /** A word without set bits is zero. */
  lemma ZeroIfClear(x: nat)
    requires forall k: nat :: !Bit(x, k)
    ensures x == 0
  {
    if x > 0 {
      var k := LowestSet(x);
      assert false;
    }
  }

  /** `1 << k` has exactly bit `k`. */
  lemma OneBit(k: nat)
    ensures forall j: nat :: Bit(Shl(1, k), j) == (j == k)
  {
    ZeroBits();
    forall j: nat ensures Bit(Shl(1, k), j) == (j == k) {
      if j > k { assert Bit(1, j - k) == Bit(0, j - k - 1); }
    }
  }

  /** Words with the same bits are equal. */
  lemma {:induction false} SameBits(x: nat, y: nat)
    requires forall k: nat :: Bit(x, k) == Bit(y, k)
    ensures x == y
    decreases x
  {
    if x == 0 {
      ZeroBits();
      ZeroIfClear(y);
    } else {
      var j := 0;
      assert Bit(x, j) == Bit(y, j);
      forall k: nat ensures Bit(x / 2, k) == Bit(y / 2, k) {
        assert Bit(x, k + 1) == Bit(y, k + 1);
      }
      SameBits(x / 2, y / 2);
    }
  }

  lemma {:induction false} HighBitClear(x: nat, n: nat, k: nat)
    requires x < Pow2(n) && k >= n
    ensures !Bit(x, k)
    decreases n
  {
    if n == 0 { ZeroBit(k); } else { HighBitClear(x / 2, n - 1, k - 1); }
  }

  /** A word that fits in `n` bits has no bit at or above `n` ... */
  lemma HighBitsClear(x: nat, n: nat)
    requires x < Pow2(n)
    ensures forall k: nat :: k >= n ==> !Bit(x, k)
  {
    forall k: nat | k >= n ensures !Bit(x, k) { HighBitClear(x, n, k); }
  }

  /** ... and conversely. */
  lemma {:induction false} FitsIfClear(x: nat, n: nat)
    requires forall k: nat :: k >= n ==> !Bit(x, k)
    ensures x < Pow2(n)
    decreases n
  {
    if n == 0 {
      ZeroIfClear(x);
    } else {
      forall k: nat | k >= n - 1 ensures !Bit(x / 2, k) {
        assert !Bit(x, k + 1);
      }
      FitsIfClear(x / 2, n - 1);
    }
  }

  /** Narrowing a word that already fits changes nothing. */
  lemma TruncFits(x: nat, n: nat)
    requires x < Pow2(n)
    ensures Trunc(x, n) == x
  {
    HighBitsClear(x, n);
    SameBits(Trunc(x, n), x);
  }

  lemma OrFits(x: nat, y: nat, n: nat)
    requires x < Pow2(n) && y < Pow2(n)
    ensures Or(x, y) < Pow2(n)
  {
    HighBitsClear(x, n); HighBitsClear(y, n); FitsIfClear(Or(x, y), n);
  }

  lemma XorFits(x: nat, y: nat, n: nat)
    requires x < Pow2(n) && y < Pow2(n)
    ensures Xor(x, y) < Pow2(n)
  {
    HighBitsClear(x, n); HighBitsClear(y, n); FitsIfClear(Xor(x, y), n);
  }

  lemma Powers()
    ensures Pow2(8) == 256 && Pow2(16) == 0x1_0000 && Pow2(32) == 0x1_0000_0000
  {
    assert Pow2(4) == 16;
    assert Pow2(8) == 256;
    assert Pow2(12) == 0x1000;
    assert Pow2(16) == 0x1_0000;
    assert Pow2(20) == 0x10_0000;
    assert Pow2(24) == 0x100_0000;
    assert Pow2(28) == 0x1000_0000;
  }

  /** Number of set bits. */
  function PopCount(x: nat): (c: nat)
    ensures c == 0 <==> x == 0
  {
    if x == 0 then 0 else x % 2 + PopCount(x / 2)
  }

  /** Index of the lowest set bit. */
  function LowestSet(x: nat): (k: nat)
    requires x > 0
    ensures Bit(x, k) && forall j: nat :: j < k ==> !Bit(x, j)
  {
    if x % 2 == 1 then 0 else
      var h := LowestSet(x / 2);
      assert forall j: nat :: 0 < j < h + 1 ==> Bit(x, j) == Bit(x / 2, j - 1);
      h + 1
  }
}
