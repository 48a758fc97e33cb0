/** Bit fields that span byte boundaries in an octet array: `setbits` and `getbits`
    (src/bcmutils.c). */
module BitField {
  import opened Bits

  /** Bit `i` of an octet array, counted from the low bit of octet 0. */
  predicate BitOf(a: seq<byte>, i: nat)
    requires i / 8 < |a|
  {
    Bit(a[i / 8], i % 8)
  }

  /** The `n`-bit number stored from bit `st` on, low bit first. */
  function FieldOf(a: seq<byte>, st: nat, n: nat): (v: nat)
    requires st + n <= 8 * |a|
    ensures forall k: nat :: Bit(v, k) == (k < n && BitOf(a, st + k))
    decreases n
  {
    if n == 0 then ZeroBits(); 0 else
      var h := FieldOf(a, st + 1, n - 1);
      var b := if BitOf(a, st) then 1 else 0;
      assert (2 * h + b) / 2 == h;
      2 * h + b
  }

  /** The octet that holds the last of the `n` bits from `st` on. */
  function LastByte(st: nat, n: nat): nat
    requires n >= 1
  {
    (st + n - 1) / 8
  }

  /** What a write of `v` into the `n` bits from `st` on makes of bit `k` of octet `b`, which was `was`: the
      field takes the low bits of `v`. The value is never masked, so its further bits are OR-ed into the rest
      of the field's last octet. */
  predicate NewBit(was: bool, b: nat, k: nat, st: nat, n: nat, v: nat)
    requires n >= 1
  {
    var i := 8 * b + k;
    if i < st then was
    else if i < st + n then Bit(v, i - st)
    else was || (b == LastByte(st, n) && Bit(v, i - st))
  }

  /** Octet `b` of the array changes from `o` to `x` exactly so. */
  ghost predicate OctetDone(o: byte, x: byte, b: nat, st: nat, n: nat, v: nat)
    requires n >= 1
  {
    forall k: nat :: k < 8 ==> Bit(x, k) == NewBit(Bit(o, k), b, k, st, n, v)
  }

  /** `a1` is what writing `v` into the `n` bits from `st` on makes of `a0`. */
  ghost predicate Written(a0: seq<byte>, a1: seq<byte>, st: nat, n: nat, v: nat)
    requires n >= 1
  {
    |a1| == |a0| && forall b: nat :: b < |a0| ==> OctetDone(a0[b], a1[b], b, st, n, v)
  }

  /** C `(x & ~mask) | v` on octets. */
  function Merge(x: byte, mask: byte, v: byte): (r: byte)
    ensures forall k: nat :: Bit(r, k) == ((Bit(x, k) && !Bit(mask, k) && k < 8) || Bit(v, k))
  {
    Powers();
    OrFits(And(x, Not(mask, 8)), v, 8);
    Or(And(x, Not(mask, 8)), v)
  }

  function Octet(x: nat): (r: byte)
    ensures forall k: nat :: Bit(r, k) == (k < 8 && Bit(x, k))
  {
    Powers();
    Trunc(x, 8)
  }

  lemma SameOctet(o: byte, st: nat, n: nat, v: nat)
    requires 1 <= n && st / 8 == LastByte(st, n)
    ensures OctetDone(o, Merge(o, Octet(Shl(Ones(n), st % 8)), Octet(Shl(v, st % 8))), st / 8, st, n, v)
  {
    hide Bit, And, Or, Not, Shl, Shr, Trunc, Ones, Pow2;
  }

  lemma FirstOctet(o: byte, st: nat, n: nat, v: nat)
    requires n >= 1 && st / 8 < LastByte(st, n)
    ensures OctetDone(o, Merge(o, Octet(Shl(0xff, st % 8)), Octet(Shl(v, st % 8))), st / 8, st, n, v)
  {
    hide Bit, And, Or, Not, Shl, Shr, Trunc, Ones, Pow2;
    assert Ones(8) == 0xff by { Powers(); }
  }

  /** `val` holds what is left of `v` after the first `done` bits. */
  ghost predicate Remains(val: nat, v: nat, done: nat)
  {
    forall k: nat :: Bit(val, k) == Bit(v, done + k)
  }

  lemma RemainsShr(val: nat, v: nat, done: nat, k: nat)
    requires Remains(val, v, done)
    ensures Remains(Shr(val, k), v, done + k)
  {
    hide Bit, Shr;
    forall j: nat ensures Bit(Shr(val, k), j) == Bit(v, done + k + j) {
      assert Bit(val, k + j) == Bit(v, done + (k + j));
    }
  }

  lemma RemainsAll(v: nat)
    ensures Remains(v, v, 0)
  {
    hide Bit;
  }

  lemma LastOctet(o: byte, st: nat, n: nat, v: nat, val: nat, done: nat, rbits: nat)
    requires 0 < rbits < 8 && done + rbits <= n
    requires (st + n - rbits) % 8 == 0
    requires Remains(val, v, done)
    ensures OctetDone(o, Merge(o, Octet(Ones(rbits)), Octet(Shr(val, n - done - rbits))),
                      (st + n - rbits) / 8, st, n, v)
  {
    hide Bit, And, Or, Not, Shl, Shr, Trunc, Ones, Pow2;
  }

  lemma FullOctet(o: byte, b: nat, st: nat, n: nat, v: nat, val: nat)
    requires n >= 1 && st <= 8 * b && 8 * b + 8 <= st + n && Remains(val, v, 8 * b - st)
    ensures OctetDone(o, Octet(val), b, st, n, v)
  {
    hide Bit, And, Or, Not, Shl, Shr, Trunc, Ones, Pow2;
  }

  /** The remaining bits of the last octet, as both routines compute them. */
  function RestBits(st: nat, n: nat): (r: nat)
    requires n >= 1
    ensures st / 8 < (st + n - 1) / 8 ==>
              st % 8 + n > 8 && 8 * ((st + n - 1) / 8) + (if r == 0 then 8 else r) == st + n
    ensures r < 8
  {
    (if n > 8 - st % 8 then n - (8 - st % 8) else 0) % 8
  }

  /** An octet that the field does not reach. */
  lemma Outside(o: byte, b: nat, st: nat, n: nat, v: nat)
    requires n >= 1 && (8 * b + 8 <= st || st + n <= 8 * b)
    ensures OctetDone(o, o, b, st, n, v)
  {
    hide Bit;
  }

  /** The closing loop of `setbits`: octets `f..=l` take the low octets of `val` in turn. */
  method FillOctets(addr: array<byte>, f: nat, l: int, val0: nat, ghost st: nat, ghost n: nat, ghost v: nat)
    requires n >= 1 && l < addr.Length && st <= 8 * f <= 8 * (l + 1) <= st + n
    requires Remains(val0, v, 8 * f - st)
    modifies addr
    ensures forall j: nat :: j < addr.Length && f <= j <= l ==> OctetDone(old(addr[j]), addr[j], j, st, n, v)
    ensures forall j: nat :: j < addr.Length && !(f <= j <= l) ==> addr[j] == old(addr[j])
  {
    hide Bit, And, Or, Not, Shl, Shr, Trunc, Ones, Octet, OctetDone, Remains;
    var b, val := f, val0;
    while b <= l
      invariant f <= b <= l + 1
      invariant Remains(val, v, 8 * b - st)
      invariant forall j: nat :: j < addr.Length && f <= j < b ==> OctetDone(old(addr[j]), addr[j], j, st, n, v)
      invariant forall j: nat :: j < addr.Length && !(f <= j < b) ==> addr[j] == old(addr[j])
    {
      FullOctet(addr[b], b, st, n, v, val);
      addr[b] := Octet(val);
      RemainsShr(val, v, 8 * b - st, 8);
      val := Shr(val, 8);
      b := b + 1;
    }
  }

  /** The part of `setbits` for a field that crosses an octet boundary: first partial octet, last
      partial octet, then the full octets between. */
  method SetSpanning(addr: array<byte>, st: nat, n: nat, v: uint32)
    requires 1 <= n <= 32 && st + n <= 8 * addr.Length && st / 8 < LastByte(st, n)
    modifies addr
    ensures forall j: nat :: j < addr.Length ==> OctetDone(old(addr[j]), addr[j], j, st, n, v)
  {
    hide Bit, And, Or, Not, Shl, Shr, Trunc, Ones, RestBits, Merge, Octet, OctetDone, Pow2, Remains;
    var nbits, val: nat, fbyte, lbyte := n, v, st / 8, (st + n - 1) / 8;
    var fbit, rbits := st % 8, RestBits(st, n);
    ghost var first, last := fbyte, lbyte;
    RemainsAll(v);
    if fbit > 0 {
      FirstOctet(addr[fbyte], st, n, v);
      addr[fbyte] := Merge(addr[fbyte], Octet(Shl(0xff, fbit)), Octet(Shl(val, fbit)));
      RemainsShr(val, v, 0, 8 - fbit);
      val := Shr(val, 8 - fbit);
      nbits := nbits - (8 - fbit);
      fbyte := fbyte + 1;
    }
    assert n - nbits == 8 * fbyte - st;
    if rbits > 0 {
      LastOctet(addr[lbyte], st, n, v, val, n - nbits, rbits);
      addr[lbyte] := Merge(addr[lbyte], Octet(Ones(rbits)), Octet(Shr(val, nbits - rbits)));
      lbyte := lbyte - 1;
    }
    FillOctets(addr, fbyte, lbyte, val, st, n, v);
    forall j: nat | j < addr.Length ensures OctetDone(old(addr[j]), addr[j], j, st, n, v) {
      if j < first || j > last {
        Outside(addr[j], j, st, n, v);
      } else {
        assert fbyte <= j <= lbyte || j == first || j == last;
      }
    }
  }

  /** `setbits`, under the source's own assertions: any value, whether or not it fits the field. */
  method SetBits(addr: array<byte>, stbit: nat, nbits: nat, val: uint32)
    requires 1 <= nbits <= 32 && stbit + nbits <= 8 * addr.Length
    modifies addr
    ensures Written(old(addr[..]), addr[..], stbit, nbits, val)
  {
    hide Bit, And, Or, Not, Shl, Shr, Trunc, Ones, RestBits, Merge, Octet, OctetDone, Pow2;
    var fbyte := stbit / 8;
    var lbyte := (stbit + nbits - 1) / 8;
    var fbit := stbit % 8;
    if fbyte == lbyte {
      SameOctet(addr[fbyte], stbit, nbits, val);
      addr[fbyte] := Merge(addr[fbyte], Octet(Shl(Ones(nbits), fbit)), Octet(Shl(val, fbit)));
      forall j: nat | j < addr.Length && j != fbyte ensures OctetDone(addr[j], addr[j], j, stbit, nbits, val) {
        Outside(addr[j], j, stbit, nbits, val);
      }
    } else {
      SetSpanning(addr, stbit, nbits, val);
    }
  }

  /** C `val |= part` on 32-bit words. */
  function Gather(val: uint32, part: nat): (r: uint32)
    ensures forall k: nat :: Bit(r, k) == (Bit(val, k) || (k < 32 && Bit(part, k)))
  {
    Powers();
    OrFits(val, Trunc(part, 32), 32);
    Or(val, Trunc(part, 32))
  }

  /** `val` holds the field's bits outside octets `b..=l`, and nothing else. */
  ghost predicate Gathered(a: seq<byte>, st: nat, n: nat, b: nat, l: int, val: nat)
    requires st + n <= 8 * |a|
  {
    forall k: nat :: Bit(val, k) == (k < n && !(b <= (st + k) / 8 <= l) && BitOf(a, st + k))
  }

  lemma GatherFirst(a: seq<byte>, st: nat, n: nat, l: int)
    requires 1 <= n <= 32 && st + n <= 8 * |a|
    requires st / 8 < (st + n - 1) / 8 == l
    ensures Gathered(a, st, n, st / 8 + 1, l, Gather(0, Shr(And(a[st / 8], Octet(Shl(0xff, st % 8))), st % 8)))
  {
    hide Bit, And, Or, Not, Shl, Shr, Trunc, Ones, Pow2;
    Powers();
    assert Ones(8) == 0xff;
    ZeroBits();
    var x: nat, f := a[st / 8], st % 8;
    HighBitsClear(x, 8);
    var r := Gather(0, Shr(And(x, Octet(Shl(0xff, f))), f));
    forall k: nat
      ensures Bit(r, k) == (k < n && !(st / 8 + 1 <= (st + k) / 8 <= l) && BitOf(a, st + k))
    {
      assert Bit(r, k) == (k < 8 - f && Bit(x, k + f));
      if k < 8 - f {
        assert (st + k) / 8 == st / 8 && (st + k) % 8 == k + f;
      } else {
        assert (st + k) / 8 >= st / 8 + 1;
        assert k < n ==> (st + k) / 8 <= l;
      }
    }
  }

  lemma GatherLast(a: seq<byte>, st: nat, n: nat, f: nat, l: nat, rbits: nat, val: uint32)
    requires 1 <= n <= 32 && st + n <= 8 * |a| && 0 < rbits < 8 && rbits <= n
    requires 8 * l == st + n - rbits && f <= l
    requires Gathered(a, st, n, f, l, val)
    ensures Gathered(a, st, n, f, l - 1, Gather(val, Shl(And(a[l], Octet(Ones(rbits))), n - rbits)))
  {
    hide Bit, And, Or, Not, Shl, Shr, Trunc, Ones, Pow2;
  }

  lemma GatherFull(a: seq<byte>, st: nat, n: nat, b: nat, l: int, val: uint32)
    requires 1 <= n <= 32 && st <= 8 * b && 8 * l + 8 <= st + n <= 8 * |a| && b <= l
    requires Gathered(a, st, n, b, l, val)
    ensures Gathered(a, st, n, b + 1, l, Gather(val, Shl(a[b], 8 * b - st)))
  {
    hide Bit, And, Or, Not, Shl, Shr, Trunc, Ones, Pow2;
    var x: nat := a[b];
    Powers();
    HighBitsClear(x, 8);
  }

  lemma GatherSame(a: seq<byte>, st: nat, n: nat)
    requires 1 <= n && st + n <= 8 * |a| && st / 8 == LastByte(st, n)
    ensures Shr(And(a[st / 8], Octet(Shl(Ones(n), st % 8))), st % 8) == FieldOf(a, st, n)
  {
    hide Bit, And, Shl, Shr, Ones, Octet, FieldOf;
    SameBits(Shr(And(a[st / 8], Octet(Shl(Ones(n), st % 8))), st % 8), FieldOf(a, st, n));
  }

  lemma GatherNone(a: seq<byte>, st: nat, n: nat, l: int)
    requires 1 <= n && st + n <= 8 * |a| && LastByte(st, n) <= l
    ensures Gathered(a, st, n, st / 8, l, 0)
  {
    hide Bit;
    ZeroBits();
  }

  lemma GatherAll(a: seq<byte>, st: nat, n: nat, b: nat, l: int, val: nat)
    requires st + n <= 8 * |a| && l < b && Gathered(a, st, n, b, l, val)
    ensures val == FieldOf(a, st, n)
  {
    hide Bit, FieldOf;
    SameBits(val, FieldOf(a, st, n));
  }

  method GetBits(addr: array<byte>, stbit: nat, nbits: nat) returns (v: uint32)
    requires 1 <= nbits <= 32 && stbit + nbits <= 8 * addr.Length
    ensures v == FieldOf(addr[..], stbit, nbits)
  {
    hide Bit, And, Or, Not, Shl, Shr, Trunc, Ones, RestBits, Merge, Octet, Gather, Gathered, FieldOf, Pow2;
    var fbyte := stbit / 8;
    var lbyte := (stbit + nbits - 1) / 8;
    var fbit := stbit % 8;
    var rbits := RestBits(stbit, nbits);
    var val: uint32, bits := 0, 0;
    ghost var a := addr[..];

    if fbyte == lbyte {
      GatherSame(a, stbit, nbits);
      v := Shr(And(addr[fbyte], Octet(Shl(Ones(nbits), fbit))), fbit);
      return;
    }
    GatherNone(a, stbit, nbits, lbyte);
    if fbit > 0 {
      GatherFirst(a, stbit, nbits, lbyte);
      bits := 8 - fbit;
      val := Gather(val, Shr(And(addr[fbyte], Octet(Shl(0xff, fbit))), fbit));
      fbyte := fbyte + 1;
    }
    assert Gathered(a, stbit, nbits, fbyte, lbyte, val);
    if rbits > 0 {
      GatherLast(a, stbit, nbits, fbyte, lbyte, rbits, val);
      val := Gather(val, Shl(And(addr[lbyte], Octet(Ones(rbits))), nbits - rbits));
      lbyte := lbyte - 1;
    }
    var b := fbyte;
    while b <= lbyte
      invariant fbyte <= b <= lbyte + 1
      invariant Gathered(a, stbit, nbits, b, lbyte, val)
    {
      assert 8 * (b - fbyte) + bits == 8 * b - stbit;
      GatherFull(a, stbit, nbits, b, lbyte, val);
      val := Gather(val, Shl(addr[b], 8 * (b - fbyte) + bits));
      b := b + 1;
    }
    v := val;
    GatherAll(a, stbit, nbits, b, lbyte, val);
  }

  /** What a write does, bit by bit of the whole array. */
  lemma WrittenBit(a0: seq<byte>, a1: seq<byte>, st: nat, n: nat, v: nat, i: nat)
    requires n >= 1 && Written(a0, a1, st, n, v) && i < 8 * |a0|
    ensures BitOf(a1, i) == NewBit(BitOf(a0, i), i / 8, i % 8, st, n, v)
  {
    hide Bit, NewBit;
    assert OctetDone(a0[i / 8], a1[i / 8], i / 8, st, n, v);
  }

  /** Reading a field back after writing it returns the low bits of the value, so a value that fits comes
      back whole. */
  lemma GetAfterSet(a0: seq<byte>, a1: seq<byte>, st: nat, n: nat, v: nat)
    requires n >= 1 && Written(a0, a1, st, n, v) && |a1| == |a0| && st + n <= 8 * |a0|
    ensures FieldOf(a1, st, n) == Trunc(v, n)
    ensures v < Pow2(n) ==> FieldOf(a1, st, n) == v
  {
    hide Bit, Written, BitOf, FieldOf, Trunc;
    var r := FieldOf(a1, st, n);
    forall k: nat ensures Bit(r, k) == Bit(Trunc(v, n), k) {
      if k < n { WrittenBit(a0, a1, st, n, v, st + k); }
    }
    SameBits(r, Trunc(v, n));
    if v < Pow2(n) { TruncFits(v, n); }
  }

  /** Every bit outside the field is kept. */
  ghost predicate OutsideKept(a0: seq<byte>, a1: seq<byte>, st: nat, n: nat)
    requires |a1| == |a0|
  {
    forall i: nat :: i < 8 * |a0| && !(st <= i < st + n) ==> BitOf(a1, i) == BitOf(a0, i)
  }

  /** Bit `st + k`, above the field but in its last octet, is not changed by a write of `v`. */
  predicate NoSpill(a0: seq<byte>, st: nat, n: nat, v: nat, k: nat)
    requires n >= 1 && LastByte(st, n) < |a0|
  {
    n <= k && (st + k) / 8 == LastByte(st, n) && Bit(v, k) ==> BitOf(a0, st + k)
  }

  /** A write keeps every bit outside the field exactly when the bits of the value that spill over meet only
      bits already set; a value that fits the field has none. */
  lemma OutsideKeptExactly(a0: seq<byte>, a1: seq<byte>, st: nat, n: nat, v: nat)
    requires n >= 1 && st + n <= 8 * |a0| && Written(a0, a1, st, n, v) && |a1| == |a0|
    ensures OutsideKept(a0, a1, st, n) <==> forall k: nat :: NoSpill(a0, st, n, v, k)
    ensures v < Pow2(n) ==> OutsideKept(a0, a1, st, n)
  {
    hide Bit, Written, BitOf, Pow2;
    if OutsideKept(a0, a1, st, n) {
      forall k: nat ensures NoSpill(a0, st, n, v, k) {
        if n <= k && (st + k) / 8 == LastByte(st, n) { WrittenBit(a0, a1, st, n, v, st + k); }
      }
    }
    if forall k: nat :: NoSpill(a0, st, n, v, k) {
      forall i: nat | i < 8 * |a0| && !(st <= i < st + n) ensures BitOf(a1, i) == BitOf(a0, i) {
        WrittenBit(a0, a1, st, n, v, i);
        if i >= st { assert NoSpill(a0, st, n, v, i - st); }
      }
    }
    if v < Pow2(n) { HighBitsClear(v, n); }
  }

  /** A write that spills nothing keeps every field it does not overlap. */
  lemma OtherFieldKept(a0: seq<byte>, a1: seq<byte>, st: nat, n: nat, v: nat, st2: nat, n2: nat)
    requires n >= 1 && Written(a0, a1, st, n, v) && |a1| == |a0| && st + n <= 8 * |a0| && st2 + n2 <= 8 * |a0|
    requires OutsideKept(a0, a1, st, n) && (st + n <= st2 || st2 + n2 <= st)
    ensures FieldOf(a1, st2, n2) == FieldOf(a0, st2, n2)
  {
    hide Bit, Written, BitOf, FieldOf;
    var r0, r1 := FieldOf(a0, st2, n2), FieldOf(a1, st2, n2);
    forall k: nat ensures Bit(r1, k) == Bit(r0, k) {
      if k < n2 { assert BitOf(a1, st2 + k) == BitOf(a0, st2 + k); }
    }
    SameBits(r1, r0);
  }

  /** A write is determined by its arguments: two results with the same effect are equal. */
  lemma WrittenUnique(a0: seq<byte>, a1: seq<byte>, a2: seq<byte>, st: nat, n: nat, v: nat)
    requires n >= 1 && Written(a0, a1, st, n, v) && Written(a0, a2, st, n, v)
    ensures a1 == a2
  {
    hide Bit, NewBit;
    forall b: nat | b < |a0| ensures a1[b] == a2[b] {
      assert OctetDone(a0[b], a1[b], b, st, n, v) && OctetDone(a0[b], a2[b], b, st, n, v);
      Powers();
      HighBitsClear(a1[b], 8);
      HighBitsClear(a2[b], 8);
      SameBits(a1[b], a2[b]);
    }
  }

  lemma FieldBit(a: seq<byte>, st: nat, n: nat, b: nat, k: nat)
    requires st + n <= 8 * |a| && b < |a| && k < 8 && st <= 8 * b + k < st + n
    ensures Bit(FieldOf(a, st, n), 8 * b + k - st) == Bit(a[b], k)
  {
    hide Bit, FieldOf;
    var v, j: nat := FieldOf(a, st, n), 8 * b + k - st;
    assert Bit(v, j) == BitOf(a, st + j);
    assert (st + j) / 8 == b && (st + j) % 8 == k;
  }

  /** Writing back what was read changes nothing. */
  lemma WriteBack(a0: seq<byte>, a1: seq<byte>, st: nat, n: nat)
    requires n >= 1 && st + n <= 8 * |a0| && Written(a0, a1, st, n, FieldOf(a0, st, n))
    ensures a1 == a0
  {
    hide Bit, FieldOf;
    var v := FieldOf(a0, st, n);
    forall b: nat | b < |a0| ensures OctetDone(a0[b], a0[b], b, st, n, v) {
      forall k: nat | k < 8 && st <= 8 * b + k < st + n ensures Bit(a0[b], k) == Bit(v, 8 * b + k - st) {
        FieldBit(a0, st, n, b, k);
      }
    }
    WrittenUnique(a0, a1, a0, st, n, v);
  }
}
