/** Circular bit ranges in a bit map: `set_bitrange` and `clr_bitrange` work octet by octet,
    `set_bitrange_u32` and `clr_bitrange_u32` word by word (src/bcmutils.c). */
module BitRange {
  import opened Bits

  /** Positions from `start` to `end`, wrapping past `maxbit` to 0 when `end` is below `start`. */
  predicate InCircle(i: nat, start: nat, end: nat, maxbit: nat)
  {
    if start <= end then start <= i <= end else start <= i <= maxbit || i <= end
  }

  /** An element whose bit 0 sits at position `base` changes from `o` to `x` by giving the
      positions `lo..hi` the value `v` and keeping the others. */
  ghost predicate Marked(o: nat, x: nat, base: nat, width: nat, lo: nat, hi: nat, v: bool)
  {
    forall k: nat :: k < width ==> Bit(x, k) == if lo <= base + k < hi then v else Bit(o, k)
  }

  /** The same for every element of a map of `width`-bit elements. */
  ghost predicate AllMarked(s0: seq<nat>, s1: seq<nat>, width: nat, lo: nat, hi: nat, v: bool)
  {
    |s1| == |s0| && forall j: nat :: j < |s0| ==> Marked(s0[j], s1[j], width * j, width, lo, hi, v)
  }

  /** What the four routines promise: exactly the circular range takes the value `v`. */
  ghost predicate CircleMarked(s0: seq<nat>, s1: seq<nat>, width: nat, start: nat, end: nat, maxbit: nat, v: bool)
  {
    |s1| == |s0| &&
    forall j: nat, k: nat :: j < |s0| && k < width ==>
      Bit(s1[j], k) == if InCircle(width * j + k, start, end, maxbit) then v else Bit(s0[j], k)
  }

  lemma Join(s0: seq<nat>, s1: seq<nat>, s2: seq<nat>, width: nat, lo: nat, mid: nat, hi: nat, v: bool)
    requires lo <= mid <= hi
    requires (AllMarked(s0, s1, width, lo, mid, v) && AllMarked(s1, s2, width, mid, hi, v))
          || (AllMarked(s0, s1, width, mid, hi, v) && AllMarked(s1, s2, width, lo, mid, v))
    ensures AllMarked(s0, s2, width, lo, hi, v)
  {
    hide Bit;
    forall j: nat | j < |s0| ensures Marked(s0[j], s2[j], width * j, width, lo, hi, v) {
      if AllMarked(s0, s1, width, lo, mid, v) && AllMarked(s1, s2, width, mid, hi, v) {
        assert Marked(s0[j], s1[j], width * j, width, lo, mid, v);
        assert Marked(s1[j], s2[j], width * j, width, mid, hi, v);
      } else {
        assert Marked(s0[j], s1[j], width * j, width, mid, hi, v);
        assert Marked(s1[j], s2[j], width * j, width, lo, mid, v);
      }
    }
  }

  lemma Straight(s0: seq<nat>, s1: seq<nat>, width: nat, start: nat, end: nat, maxbit: nat, v: bool)
    requires start <= end && AllMarked(s0, s1, width, start, end + 1, v)
    ensures CircleMarked(s0, s1, width, start, end, maxbit, v)
  {
    hide Bit;
    forall j: nat, k: nat | j < |s0| && k < width
      ensures Bit(s1[j], k) == if InCircle(width * j + k, start, end, maxbit) then v else Bit(s0[j], k)
    {
      assert Marked(s0[j], s1[j], width * j, width, start, end + 1, v);
    }
  }

  /** The two recursive calls of the wrapped case together mark the circle. */
  lemma Wrapped(s0: seq<nat>, s1: seq<nat>, s2: seq<nat>, width: nat, start: nat, end: nat, maxbit: nat, v: bool)
    requires end < start <= maxbit
    requires CircleMarked(s0, s1, width, start, maxbit, maxbit, v)
    requires CircleMarked(s1, s2, width, 0, end, maxbit, v)
    ensures CircleMarked(s0, s2, width, start, end, maxbit, v)
  {
    hide Bit;
  }

  /** The recursion of the four routines: whether a call returns within `depth` nested calls. */
  predicate Returns(start: nat, end: nat, maxbit: nat, depth: nat)
    decreases depth
  {
    depth > 0 &&
    (start <= end || (Returns(start, maxbit, maxbit, depth - 1) && Returns(0, end, maxbit, depth - 1)))
  }

  ghost predicate Terminates(start: nat, end: nat, maxbit: nat)
  {
    exists depth: nat :: Returns(start, end, maxbit, depth)
  }

  /** A call returns exactly when its range does not wrap or starts within the map: beyond `maxbit` the
      wrapped case calls itself with its own arguments. */
  lemma TerminatesExactly(start: nat, end: nat, maxbit: nat)
    ensures Terminates(start, end, maxbit) <==> start <= end || start <= maxbit
  {
    if start <= end || start <= maxbit {
      ReturnsSoon(start, end, maxbit, 2);
    } else {
      forall depth: nat ensures !Returns(start, end, maxbit, depth) {
        NeverReturns(start, end, maxbit, depth);
      }
    }
  }

  lemma ReturnsSoon(start: nat, end: nat, maxbit: nat, depth: nat)
    requires (start <= end || start <= maxbit) && depth >= 2
    ensures Returns(start, end, maxbit, depth)
  {
  }

  lemma {:induction false} NeverReturns(start: nat, end: nat, maxbit: nat, depth: nat)
    requires end < start && maxbit < start
    ensures !Returns(start, end, maxbit, depth)
    decreases depth
  {
    if depth == 0 {
    } else {
      NeverReturns(start, maxbit, maxbit, depth - 1);
    }
  }

  /** `setbit` and `clrbit` on an octet array. */
  function SetOne(x: byte, k: nat): (r: byte)
    requires k < 8
    ensures forall j: nat :: Bit(r, j) == (Bit(x, j) || j == k)
  {
    OneBit(k);
    Powers();
    FitsIfClear(Shl(1, k), 8);
    OrFits(x, Shl(1, k), 8);
    Or(x, Shl(1, k))
  }

  function ClearOne(x: byte, k: nat): (r: byte)
    requires k < 8
    ensures forall j: nat :: j < 8 ==> Bit(r, j) == (Bit(x, j) && j != k)
  {
    OneBit(k);
    And(x, Not(Shl(1, k), 8))
  }

  /** One of the bit-by-bit loops of the octet routines: positions `lo..=hi`. */
  method MarkRun(a: array<byte>, lo: nat, hi: nat, v: bool)
    requires lo <= hi + 1 && hi < 8 * a.Length
    modifies a
    ensures AllMarked(old(a[..]), a[..], 8, lo, hi + 1, v)
  {
    hide Bit, SetOne, ClearOne;
    var i := lo;
    while i <= hi
      invariant lo <= i <= hi + 1
      invariant AllMarked(old(a[..]), a[..], 8, lo, i, v)
    {
      ghost var before := a[..];
      var x := if v then SetOne(a[i / 8], i % 8) else ClearOne(a[i / 8], i % 8);
      a[i / 8] := x;
      assert 8 * (i / 8) + i % 8 == i;
      assert Marked(before[i / 8], x, 8 * (i / 8), 8, i, i + 1, v);
      assert AllMarked(before, a[..], 8, i, i + 1, v);
      Join(old(a[..]), before, a[..], 8, lo, i, i + 1, v);
      i := i + 1;
    }
  }

  /** The octet constant of `set_bitrange` and of `clr_bitrange`. */
  function Fill8(v: bool): (r: byte)
    ensures forall k: nat :: k < 8 ==> Bit(r, k) == v
  {
    Powers();
    ZeroBits();
    assert Ones(8) == 0xFF;
    if v then 0xFF else 0
  }

  /** The whole-octet loop: octets `f..l`. */
  method MarkOctets(a: array<byte>, f: nat, l: nat, v: bool)
    requires f <= l <= a.Length
    modifies a
    ensures AllMarked(old(a[..]), a[..], 8, 8 * f, 8 * l, v)
  {
    hide Bit, Fill8;
    var i := f;
    while i < l
      invariant f <= i <= l
      invariant forall j: nat :: f <= j < i ==> a[j] == Fill8(v)
      invariant forall j: nat :: j < a.Length && !(f <= j < i) ==> a[j] == old(a[j])
    {
      a[i] := Fill8(v);
      i := i + 1;
    }
  }

  /** `set_bitrange` with `v` true and `clr_bitrange` with `v` false: the two differ only in the
      octet constant and the single-bit operation. */
  method MarkRange(a: array<byte>, start: nat, end: nat, maxbit: nat, v: bool)
    requires if start <= end then end < 8 * a.Length else start <= maxbit < 8 * a.Length
    modifies a
    ensures CircleMarked(old(a[..]), a[..], 8, start, end, maxbit, v)
    decreases if end < start then 1 else 0
  {
    var startbyte, endbyte := start / 8, end / 8;
    ghost var s0 := a[..];
    if end >= start {
      if endbyte - startbyte > 1 {
        var startbytelastbit := (startbyte + 1) * 8 - 1;
        var endbytestartbit := endbyte * 8;
        MarkOctets(a, startbyte + 1, endbyte, v);
        ghost var s1 := a[..];
        MarkRun(a, start, startbytelastbit, v);
        ghost var s2 := a[..];
        Join(s0, s1, s2, 8, start, startbytelastbit + 1, endbytestartbit, v);
        MarkRun(a, endbytestartbit, end, v);
        Join(s0, s2, a[..], 8, start, endbytestartbit, end + 1, v);
      } else {
        MarkRun(a, start, end, v);
      }
      Straight(s0, a[..], 8, start, end, maxbit, v);
    } else {
      MarkRange(a, start, maxbit, maxbit, v);
      ghost var s1 := a[..];
      MarkRange(a, 0, end, maxbit, v);
      Wrapped(s0, s1, a[..], 8, start, end, maxbit, v);
    }
  }

  /** `u32max << s` and `u32max >> (31 - e)`: the word's bits from `s` up, and up to `e`. */
  function From(s: nat): (r: uint32)
    requires s < 32
    ensures forall k: nat :: Bit(r, k) == (s <= k < 32)
  {
    Powers();
    assert Ones(32) == UINT32_MAX;
    Trunc(Shl(UINT32_MAX, s), 32)
  }

  function UpTo(e: nat): (r: uint32)
    requires e < 32
    ensures forall k: nat :: Bit(r, k) == (k <= e)
  {
    Powers();
    assert Ones(32) == UINT32_MAX;
    Shr(UINT32_MAX, 31 - e)
  }

  /** `word |= mask` or `word &= ~mask`. */
  function Apply(x: uint32, mask: uint32, v: bool): (r: uint32)
    ensures forall k: nat :: k < 32 ==> Bit(r, k) == if Bit(mask, k) then v else Bit(x, k)
  {
    Powers();
    OrFits(x, mask, 32);
    if v then Or(x, mask) else And(x, Not(mask, 32))
  }

  /** The straight case of `set_bitrange_u32` and `clr_bitrange_u32` when the range spans words. */
  method MarkWords(a: array<uint32>, start: nat, end: nat, v: bool)
    requires start / 32 < end / 32 < a.Length
    modifies a
    ensures AllMarked(old(a[..]), a[..], 32, start, end + 1, v)
  {
    hide Bit, From, UpTo, Apply;
    var startword, endword := start / 32, end / 32;
    ghost var s0 := a[..];
    a[startword] := Apply(a[startword], From(start % 32), v);
    ghost var s1 := a[..];
    assert AllMarked(s0, s1, 32, start, 32 * (startword + 1), v);
    FillWords(a, startword + 1, endword, v);
    Join(s0, s1, a[..], 32, start, 32 * (startword + 1), 32 * endword, v);
    ghost var s2 := a[..];
    a[endword] := Apply(a[endword], UpTo(end % 32), v);
    assert AllMarked(s2, a[..], 32, 32 * endword, end + 1, v);
    Join(s0, s2, a[..], 32, start, 32 * endword, end + 1, v);
  }

  /** The word constant of the `u32` routines. */
  function Fill32(v: bool): (r: uint32)
    ensures forall k: nat :: k < 32 ==> Bit(r, k) == v
  {
    Powers();
    ZeroBits();
    assert Ones(32) == UINT32_MAX;
    if v then UINT32_MAX else 0
  }

  /** The whole-word loop: words `f..l`. */
  method FillWords(a: array<uint32>, f: nat, l: nat, v: bool)
    requires f <= l <= a.Length
    modifies a
    ensures AllMarked(old(a[..]), a[..], 32, 32 * f, 32 * l, v)
  {
    hide Bit, Fill32;
    var i := f;
    while i < l
      invariant f <= i <= l
      invariant forall j: nat :: f <= j < i ==> a[j] == Fill32(v)
      invariant forall j: nat :: j < a.Length && !(f <= j < i) ==> a[j] == old(a[j])
    {
      a[i] := Fill32(v);
      i := i + 1;
    }
  }

  /** `set_bitrange_u32` with `v` true and `clr_bitrange_u32` with `v` false. */
  method MarkRangeU32(a: array<uint32>, start: nat, end: nat, maxbit: nat, v: bool)
    requires if start <= end then end < 32 * a.Length else start <= maxbit < 32 * a.Length
    modifies a
    ensures CircleMarked(old(a[..]), a[..], 32, start, end, maxbit, v)
    decreases if end < start then 1 else 0
  {
    hide Bit, From, UpTo, Apply;
    ghost var s0 := a[..];
    if start > end {
      MarkRangeU32(a, start, maxbit, maxbit, v);
      ghost var s1 := a[..];
      MarkRangeU32(a, 0, end, maxbit, v);
      Wrapped(s0, s1, a[..], 32, start, end, maxbit, v);
      return;
    }
    var startword, endword := start / 32, end / 32;
    if endword - startword != 0 {
      MarkWords(a, start, end, v);
    } else {
      a[startword] := Apply(a[startword], And(From(start % 32), UpTo(end % 32)), v);
      assert AllMarked(s0, a[..], 32, start, end + 1, v);
    }
    Straight(s0, a[..], 32, start, end, maxbit, v);
  }

  /** Octet `n` of a word on a little-endian host. */
  function OctetOf(x: uint32, n: nat): (r: byte)
    ensures forall k: nat :: k < 8 ==> Bit(r, k) == Bit(x, 8 * n + k)
  {
    Powers();
    Trunc(Shr(x, 8 * n), 8)
  }

  /** The little-endian view of a word array. */
  function Octets(w: seq<uint32>): (a: seq<byte>)
    ensures |a| == 4 * |w|
  {
    seq(4 * |w|, i requires 0 <= i < 4 * |w| => OctetOf(w[i / 4], i % 4))
  }

  /** Position `i` of the little-endian view is bit `i % 32` of word `i / 32`. */
  lemma OctetsBit(w: seq<uint32>, j: nat, k: nat)
    requires j < 4 * |w| && k < 8
    ensures Bit(Octets(w)[j], k) == Bit(w[j / 4], 8 * (j % 4) + k)
  {
    hide Bit, OctetOf;
    assert Octets(w)[j] == OctetOf(w[j / 4], j % 4);
  }

  /** The word routine does to the little-endian view exactly what the octet routine does. */
  lemma WordsMatchOctets(w0: seq<uint32>, w1: seq<uint32>, a1: seq<byte>,
                         start: nat, end: nat, maxbit: nat, v: bool)
    requires CircleMarked(w0, w1, 32, start, end, maxbit, v)
    requires CircleMarked(Octets(w0), a1, 8, start, end, maxbit, v)
    ensures Octets(w1) == a1
  {
    hide Bit, Octets, InCircle;
    var b0, b1 := Octets(w0), Octets(w1);
    forall j: nat | j < |a1| ensures b1[j] == a1[j] {
      forall k: nat | k < 8 ensures Bit(b1[j], k) == Bit(a1[j], k) {
        OctetsBit(w0, j, k);
        OctetsBit(w1, j, k);
        var i: nat := 8 * (j % 4) + k;
        assert 32 * (j / 4) + i == 8 * j + k;
      }
      Powers();
      HighBitsClear(b1[j], 8);
      HighBitsClear(a1[j], 8);
      SameBits(b1[j], a1[j]);
    }
  }
}
