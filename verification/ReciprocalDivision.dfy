/** Division by 1,000 and 1,000,000 through a 64-bit reciprocal (`div_1K` and `div_1M`,
    src/bcmutils.c). Every intermediate is reduced to its C width. */
module ReciprocalDivision {
  import opened Bits

  const W64: nat := 0x1_0000_0000_0000_0000

  type uint64 = x: nat | x < 0x1_0000_0000_0000_0000

  /** `a >> 32` and the carry out of the 64-bit sum of two cross products. */
  function CrossSum(x: nat, y: nat): (r: nat)
    requires x < W64 && y < W64
    ensures r == (x + y) / W32
  {
    var a := (x + y) % W64;
    var carry := a < y;
    a / W32 + if carry then W32 else 0
  }

  function Div1K(q: uint64): (r: uint64)
  {
    var lo, hi := q % W32, q / W32;
    var low := CrossSum(hi * 0x8D4F_DF3C, lo * 0x8312_6E98);
    ((hi * 0x8312_6E97 + low) % W64) / 0x200
  }

  function Div1M(q: uint64): (r: uint64)
  {
    var lo, hi := q % W32, q / W32;
    var low := CrossSum(hi * 0xAF6C_69B6, lo * 0x8637_BD06);
    ((hi * 0x8637_BD05 + low) % W64) / 0x8_0000
  }

  /** How far the scaled reciprocal overshoots `q / 1000`, in units of 1 / (1000 * 2^41). */
  function Excess1K(q: uint64): (e: nat) { 608 * (q / W32) + 448 * (q % W32) }

  /** The same for `q / 1000000`, in units of 1 / (1000000 * 2^51). */
  function Excess1M(q: uint64): (e: nat) { 350592 * (q / W32) + 314752 * (q % W32) }

  /** The overshoot reaches the next integer. Only dividends whose remainder is within the
      overshoot of a full divisor are affected. */
  predicate Overshoots1K(q: uint64) { Excess1K(q) >= 0x200_0000_0000 * (1000 - q % 1000) }
  predicate Overshoots1M(q: uint64) { Excess1M(q) >= 0x8_0000_0000_0000 * (1000000 - q % 1000000) }

  /** Shifting the high word and the carried-in part of the low one is shifting the whole. */
  lemma ShiftWhole1K(h: nat, cross: nat)
    ensures (h + cross / W32) / 0x200 == (W32 * h + cross) / 0x200_0000_0000
  {
    var t := h + cross / W32;
    Quotient(cross, W32);
    Quotient(t, 0x200);
    DivModUnique(W32 * h + cross, 0x200_0000_0000, t / 0x200, W32 * (t % 0x200) + cross % W32);
  }

  lemma ShiftWhole1M(h: nat, cross: nat)
    ensures (h + cross / W32) / 0x8_0000 == (W32 * h + cross) / 0x8_0000_0000_0000
  {
    var t := h + cross / W32;
    Quotient(cross, W32);
    Quotient(t, 0x8_0000);
    DivModUnique(W32 * h + cross, 0x8_0000_0000_0000, t / 0x8_0000, W32 * (t % 0x8_0000) + cross % W32);
  }

  /** Nothing wraps: the sums the code forms are the mathematical ones. */
  lemma NoWrap1K(q: uint64)
    ensures Div1K(q) == ((q / W32) * 0x8312_6E97_8D4F_DF3C + (q % W32) * 0x8312_6E98) / 0x200_0000_0000
  {
    var lo, hi := q % W32, q / W32;
    var cross := hi * 0x8D4F_DF3C + lo * 0x8312_6E98;
    assert Div1K(q) == (hi * 0x8312_6E97 + cross / W32) / 0x200 by {
      assert hi * 0x8312_6E97 + cross / W32 < W64;
    }
    ShiftWhole1K(hi * 0x8312_6E97, cross);
    assert hi * 0x8312_6E97_8D4F_DF3C + lo * 0x8312_6E98 == W32 * (hi * 0x8312_6E97) + cross;
  }

  lemma NoWrap1M(q: uint64)
    ensures Div1M(q) == ((q / W32) * 0x8637_BD05_AF6C_69B6 + (q % W32) * 0x8637_BD06) / 0x8_0000_0000_0000
  {
    var lo, hi := q % W32, q / W32;
    var cross := hi * 0xAF6C_69B6 + lo * 0x8637_BD06;
    assert Div1M(q) == (hi * 0x8637_BD05 + cross / W32) / 0x8_0000 by {
      assert hi * 0x8637_BD05 + cross / W32 < W64;
    }
    ShiftWhole1M(hi * 0x8637_BD05, cross);
    assert hi * 0x8637_BD05_AF6C_69B6 + lo * 0x8637_BD06 == W32 * (hi * 0x8637_BD05) + cross;
  }

  /** For every 64-bit dividend the result is the true quotient, or one more exactly when the
      reciprocal overshoots. */
  lemma Div1KResult(q: uint64)
    ensures Div1K(q) == q / 1000 + if Overshoots1K(q) then 1 else 0
  {
    NoWrap1K(q);
    var n := (q / W32) * 0x8312_6E97_8D4F_DF3C + (q % W32) * 0x8312_6E98;
    assert 1000 * n == 0x200_0000_0000 * q + Excess1K(q);
    assert Excess1K(q) < 3 * 0x200_0000_0000;
  }

  lemma Div1MResult(q: uint64)
    ensures Div1M(q) == q / 1000000 + if Overshoots1M(q) then 1 else 0
  {
    NoWrap1M(q);
    var n := (q / W32) * 0x8637_BD05_AF6C_69B6 + (q % W32) * 0x8637_BD06;
    assert 1000000 * n == 0x8_0000_0000_0000 * q + Excess1M(q);
    assert Excess1M(q) < 2 * 0x8_0000_0000_0000;
  }

  /** Below these the overshoot is less than one unit of the remainder, so it never shows.
      They lie above 2^60 and 2^63. */
  const SAFE_1K: nat := 0x1AF2_86BE_0000_0000
  const SAFE_1M: nat := 0x9900_77A4_0000_0000

  lemma Div1KExactBelow(q: uint64)
    ensures SAFE_1K > 0x1000_0000_0000_0000
    ensures q < SAFE_1K ==> Div1K(q) == q / 1000
  {
    Div1KResult(q);
    if q < SAFE_1K {
      assert q / W32 < 0x1AF2_86BE;
      assert Excess1K(q) < 0x200_0000_0000;
    }
  }

  lemma Div1MExactBelow(q: uint64)
    ensures SAFE_1M > 0x8000_0000_0000_0000
    ensures q < SAFE_1M ==> Div1M(q) == q / 1000000
  {
    Div1MResult(q);
    if q < SAFE_1M {
      assert q / W32 < 0x9900_77A4;
      assert Excess1M(q) < 0x8_0000_0000_0000;
    }
  }

  /** Not every 64-bit dividend is safe: these two come out one too large. */
  lemma Div1KOffByOne()
    ensures Div1K(0x1AF2_86D7_FFFF_FFF7) == 0x1AF2_86D7_FFFF_FFF7 / 1000 + 1
  {
    Div1KResult(0x1AF2_86D7_FFFF_FFF7);
  }

  lemma Div1MOffByOne()
    ensures Div1M(0x9900_7C18_FFFF_FCBF) == 0x9900_7C18_FFFF_FCBF / 1000000 + 1
  {
    Div1MResult(0x9900_7C18_FFFF_FCBF);
  }
}
