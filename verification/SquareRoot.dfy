/** The digit-by-digit square root `sqrt_int` (src/bcmutils.c). */
module SquareRoot {
  import opened Bits

  /** `r` is within one half of the real square root of `n`. */
  predicate IsNearestRoot(n: nat, r: nat)
  {
    r * r - r < n <= r * r + r || (n == 0 && r == 0)
  }

  lemma {:induction false} ShrPow2(m: nat, s: nat)
    requires s <= m
    ensures Shr(Pow2(m), s) == Pow2(m - s)
    decreases s
  {
    if s == 0 {
    } else {
      assert Pow2(m) / 2 == Pow2(m - 1);
      ShrPow2(m - 1, s - 1);
    }
  }

  /** The trial bit at `shift`. */
  lemma TrialBit(shift: nat)
    requires shift <= 30
    ensures Shr(0x4000_0000, shift) == Pow2(30 - shift)
  {
    Powers();
    assert Pow2(32) == 16 * Pow2(28) && Pow2(30) == 4 * Pow2(28);
    ShrPow2(30, shift);
  }

  /** Setting a bit below every set bit is an addition. */
  lemma {:induction false} OrShifted(a: nat, t: nat)
    ensures Or(Shl(a, t + 1), Shl(1, t)) == Shl(a, t + 1) + Shl(1, t)
  {
    if t == 0 {
      ZeroBits();
      SameBits(Or(a, 0), a);
      assert Shl(a, 1) == 2 * Shl(a, 0) == 2 * a;
      assert (2 * a) / 2 == a;
    } else {
      OrShifted(a, t - 1);
      var x, y := Shl(a, t), Shl(1, t - 1);
      assert (2 * x) / 2 == x && (2 * y) / 2 == y;
    }
  }

  lemma {:induction false} ShlIsProduct(a: nat, t: nat)
    ensures Shl(a, t) == a * Pow2(t)
    decreases t
  {
    if t == 0 {
    } else {
      ShlIsProduct(a, t - 1);
      assert a * (2 * Pow2(t - 1)) == 2 * (a * Pow2(t - 1));
    }
  }

  lemma OrLowBit(a: nat, t: nat)
    ensures Or(2 * (a * Pow2(t)), Pow2(t)) == 2 * (a * Pow2(t)) + Pow2(t)
  {
    ShlIsProduct(a, t);
    ShlIsProduct(1, t);
    OrShifted(a, t);
  }

  /** What the loop knows: the leading digits of the root are `q` and their weight squared is `s`,
      so the root found so far squares to `q * q * s`; `root` and `value` hold it and the
      remainder in scaled form. */
  ghost predicate Progress(n: nat, value: nat, root: nat, q: nat, s: nat)
  {
    && root == q * s
    && value + q * q * s == n
    && value < 2 * root + s
    && root + s <= 0x1_0000_0000
  }

  lemma Digits(q: nat, t: nat)
    ensures q * (4 * t) == 4 * (q * t)
    ensures q * q * (4 * t) == 4 * (q * q * t)
    ensures (2 * q) * t == 2 * (q * t)
    ensures (2 * q) * (2 * q) * t == 4 * (q * q * t)
    ensures (2 * q + 1) * t == 2 * (q * t) + t
    ensures (2 * q + 1) * (2 * q + 1) * t == 4 * (q * q * t) + 4 * (q * t) + t
  {
    assert (2 * q) * (2 * q) == 4 * (q * q);
    assert (2 * q + 1) * (2 * q + 1) == 4 * (q * q) + 4 * q + 1;
    assert (4 * (q * q) + 4 * q + 1) * t == 4 * (q * q) * t + 4 * q * t + t;
    assert 4 * (q * q) * t == 4 * (q * q * t);
  }

  /** One digit: the trial subtraction succeeds or the digit is zero. */
  lemma ProgressStep(n: nat, value: nat, root: nat, q: nat, t: nat)
    requires Progress(n, value, root, q, 4 * t)
    ensures root / 2 == 2 * (q * t)
    ensures t + root <= value ==>
              Progress(n, value - (t + root), root / 2 + t, 2 * q + 1, t)
    ensures value < t + root ==> Progress(n, value, root / 2, 2 * q, t)
  {
    Digits(q, t);
  }

  /** The same step as the code writes it: `|` for the addition, and nothing overflows. */
  lemma LoopStep(n: nat, value: nat, root: nat, q: nat, shift: nat)
    requires shift <= 30
    requires Progress(n, value, root, q, Pow2(32 - shift))
    ensures var bit := Shr(0x4000_0000, shift);
            && bit + root < 0x1_0000_0000
            && (bit + root <= value ==>
                  Progress(n, value - (bit + root), Or(root / 2, bit), 2 * q + 1, Pow2(30 - shift)))
            && (value < bit + root ==> Progress(n, value, root / 2, 2 * q, Pow2(30 - shift)))
  {
    var t := Pow2(30 - shift);
    assert Pow2(32 - shift) == 4 * t;
    TrialBit(shift);
    ProgressStep(n, value, root, q, t);
    OrLowBit(q, 30 - shift);
  }

  lemma Finish(n: nat, value: nat, root: nat, q: nat)
    requires Progress(n, value, root, q, 1)
    ensures IsNearestRoot(n, if root < value then root + 1 else root)
  {
    assert (root + 1) * (root + 1) == root * root + 2 * root + 1;
  }

  method SqrtInt(n: uint32) returns (r: uint32)
    ensures IsNearestRoot(n, r)
  {
    var value: uint32, root: uint32, shift: nat := n, 0, 0;
    ghost var q: nat := 0;
    Powers();
    while shift < 32
      invariant shift <= 32 && shift % 2 == 0
      invariant Progress(n, value, root, q, Pow2(32 - shift))
      invariant root < 0x1_0000_0000
    {
      LoopStep(n, value, root, q, shift);
      var bit := Shr(0x4000_0000, shift);
      var trial: uint32 := bit + root;
      if trial <= value {
        value := value - trial;
        root := Or(root / 2, bit);
        q := 2 * q + 1;
      } else {
        root := root / 2;
        q := 2 * q;
      }
      shift := shift + 2;
    }
    Finish(n, value, root, q);
    if root < value {
      root := root + 1;
    }
    r := root;
  }

  /** The two ways of saying "nearest" agree. */
  lemma Halves(n: nat, r: nat)
    ensures n > 0 ==> (IsNearestRoot(n, r) <==> (2 * r - 1) * (2 * r - 1) < 4 * n < (2 * r + 1) * (2 * r + 1))
  {
    assert (2 * r - 1) * (2 * r - 1) == 4 * (r * r) - 4 * r + 1;
    assert (2 * r + 1) * (2 * r + 1) == 4 * (r * r) + 4 * r + 1;
  }

  /** At most one integer is nearest, so the contract of `SqrtInt` fixes its result. */
  lemma NearestIsUnique(n: nat, r: nat, s: nat)
    requires IsNearestRoot(n, r) && IsNearestRoot(n, s)
    ensures r == s
  {
    if r < s {
      Apart(r, s);
    } else if s < r {
      Apart(s, r);
    }
  }

  lemma Apart(r: nat, s: nat)
    requires r < s
    ensures r * r + r <= s * s - s
  {
    assert s * s - s == s * (s - 1);
    assert r * r + r == r * (r + 1);
    assert r * (r + 1) <= (s - 1) * (r + 1) <= (s - 1) * s;
  }
}
