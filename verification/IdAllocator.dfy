/** The two-level bitmap id allocator `bcm_mwbmap_*` of src/bcmutils.c (host build, with a running
    count of free ids per word). */
module IdAllocator {
  import opened Bits
  import opened IdMap

  const INVALID_IDX: uint32 := 0xFFFF_FFFF

  // ----- finding the lowest set bit -----

  /** Significant bits of a word. */
  function BitLength(x: nat): nat { if x == 0 then 0 else 1 + BitLength(x / 2) }

  lemma {:induction false} BitLengthOfOne(k: nat)
    ensures BitLength(Shl(1, k)) == k + 1 && Shl(1, k) > 0
    decreases k
  {
    if k == 0 {
    } else {
      BitLengthOfOne(k - 1);
      assert Shl(1, k) / 2 == Shl(1, k - 1);
    }
  }

  lemma {:induction false} BitLengthFits(x: nat, n: nat)
    requires x < Pow2(n)
    ensures BitLength(x) <= n
    decreases n
  {
    if n == 0 || x == 0 {
    } else {
      BitLengthFits(x / 2, n - 1);
    }
  }

  /** `bcm_count_leading_zeros`, the C form. */
  method CountLeadingZeros(x: uint32) returns (z: nat)
    ensures z == 32 - BitLength(x)
  {
    var u: nat, shifts := x, 0;
    Powers();
    BitLengthFits(x, 32);
    while u != 0
      invariant shifts + BitLength(u) == BitLength(x)
    {
      shifts := shifts + 1;
      u := u / 2;
    }
    z := 32 - shifts;
  }

  /** The lowest digit of `x & y` and the rest. */
  lemma AndDigit(x: nat, y: nat)
    requires x > 0 && y > 0
    ensures And(x, y) == 2 * And(x / 2, y / 2) + if x % 2 == 1 && y % 2 == 1 then 1 else 0
  {
  }

  lemma {:induction false} AndComplement(h: nat, n: nat)
    requires h < Pow2(n)
    ensures And(h, Pow2(n) - 1 - h) == 0
    decreases n
  {
    hide And;
    var y: nat := Pow2(n) - 1 - h;
    if n == 0 || h == 0 || y == 0 {
      AndZero(h, y);
    } else {
      assert Pow2(n) == 2 * Pow2(n - 1);
      assert y / 2 == Pow2(n - 1) - 1 - h / 2 && h % 2 + y % 2 == 1;
      AndComplement(h / 2, n - 1);
      AndDigit(h, y);
    }
  }

  lemma AndZero(x: nat, y: nat)
    requires x == 0 || y == 0
    ensures And(x, y) == 0
  {
  }

  /** `x & -x` in two's complement keeps exactly the lowest set bit. */
  lemma {:induction false} NegativeAnd(x: nat, n: nat)
    requires 0 < x < Pow2(n)
    ensures And(x, Pow2(n) - x) == Shl(1, LowestSet(x)) && LowestSet(x) < n
    decreases n
  {
    hide And, Bit, Shl, LowestSet, Pow2;
    HalfComplement(x, n);
    AndDigit(x, Pow2(n) - x);
    LowestDigit(x);
    if x % 2 == 1 {
      AndComplement(x / 2, n - 1);
    } else {
      NegativeAnd(x / 2, n - 1);
    }
  }

  lemma HalfComplement(x: nat, n: nat)
    requires 0 < x < Pow2(n)
    ensures n > 0 && x / 2 < Pow2(n - 1)
    ensures (Pow2(n) - x) % 2 == x % 2 && (Pow2(n) - x) / 2 == Pow2(n - 1) - x / 2 - x % 2
  {
  }

  lemma LowestDigit(x: nat)
    requires x > 0
    ensures x % 2 == 1 ==> LowestSet(x) == 0 && Shl(1, LowestSet(x)) == 1
    ensures x % 2 == 0 ==> LowestSet(x) == LowestSet(x / 2) + 1
                           && Shl(1, LowestSet(x)) == 2 * Shl(1, LowestSet(x / 2))
  {
    hide Bit;
  }

  /** "clear all except trailing 1": `bitmap & -bitmap` unless only bit 31 is set. */
  function TrailingOne(x: uint32): (r: uint32)
    ensures x > 0 ==> LowestSet(x) < 32 && r == Shl(1, LowestSet(x))
  {
    Powers();
    if x == 0 then 0
    else if x != 0x8000_0000 then NegativeAnd(x, 32); And(x, 0x1_0000_0000 - x)
    else TopBit(); x
  }

  /** The two steps together: the leading zeros once all but the lowest set bit are cleared. */
  method ZerosAboveLowest(x: uint32) returns (clz: nat)
    requires x > 0
    ensures clz <= 31 && 31 - clz == LowestSet(x)
  {
    hide LowestSet, Shl, BitLength, TrailingOne;
    var bitmap := TrailingOne(x);
    BitLengthOfOne(LowestSet(x));
    clz := CountLeadingZeros(bitmap);
  }

  lemma TopBit()
    ensures LowestSet(0x8000_0000) == 31 && Shl(1, 31) == 0x8000_0000
  {
    Powers();
    NegativeAnd(0x8000_0000, 32);
    OneBit(31);
    ShlOnePow(31);
    assert Pow2(32) == 2 * Pow2(31);
    var k := LowestSet(0x8000_0000);
    assert Bit(Shl(1, 31), k);
  }

  lemma {:induction false} ShlOnePow(k: nat)
    ensures Shl(1, k) == Pow2(k)
    decreases k
  {
    if k == 0 {
    } else {
      ShlOnePow(k - 1);
    }
  }

  // ----- the search visits the least free id -----

  /** `w` is the id word, and `i` the id, that the search picks in first-level word `v`. */
  predicate Picks(m: Map, v: nat, w: nat, i: nat)
  {
    && v < |m.wd| && m.wd[v] != 0 && w == 32 * v + LowestSet(m.wd[v]) && LowestSet(m.wd[v]) < 32
    && w < |m.ids| && m.ids[w] != 0 && i == 32 * w + LowestSet(m.ids[w]) && LowestSet(m.ids[w]) < 32
  }

  /** The first non-empty first-level word leads to an id, ... */
  lemma SearchPicks(m: Map, v: nat) returns (w: nat, i: nat)
    requires Consistent(m) && v < Words(|m.ids|) && m.wd[v] != 0
    ensures Picks(m, v, w, i) && IsFree(m, i)
  {
    hide PopCount, Bit, SumPop, LowestSet, TrailingOne;
    var t := TrailingOne(m.wd[v]);
    w := 32 * v + LowestSet(m.wd[v]);
    assert w / 32 == v && w % 32 == LowestSet(m.wd[v]);
    assert w < |m.ids|;
    assert WordAgrees(m, w);
    t := TrailingOne(m.ids[w]);
    i := 32 * w + LowestSet(m.ids[w]);
    assert i / 32 == w && i % 32 == LowestSet(m.ids[w]);
  }

  /** ... and no smaller id is free. */
  lemma SearchIsLeast(m: Map, v: nat, w: nat, i: nat, j: nat)
    requires Consistent(m) && Picks(m, v, w, i) && j < i
    requires forall u: nat :: u < v ==> m.wd[u] == 0
    ensures !IsFree(m, j)
  {
    hide PopCount, Bit, SumPop, LowestSet;
    var u := j / 32;
    if u < w {
      assert WordAgrees(m, u);
      ZeroBit(u % 32);
      ZeroBit(j % 32);
      if u / 32 == v { assert u % 32 < LowestSet(m.wd[v]); }
      assert !Bit(m.wd[u / 32], u % 32);
    } else {
      assert j % 32 < LowestSet(m.ids[w]);
    }
  }

  lemma SearchFails(m: Map)
    requires Consistent(m)
    requires forall u: nat :: u < Words(|m.ids|) ==> m.wd[u] == 0
    ensures m.ifree == 0 && forall j: nat :: !IsFree(m, j)
  {
    hide PopCount, SumPop, Bit;
    forall w: nat | w < |m.ids| ensures m.ids[w] == 0 {
      assert WordAgrees(m, w);
      ZeroBit(w % 32);
    }
    SumPopZero(m.ids);
    ZeroBits();
  }

  /** The allocation found by the search is the one the run model makes. */
  lemma AllocIsStep(m: Map, r: nat)
    requires Consistent(m) && IsFree(m, r) && forall j: nat :: j < r ==> !IsFree(m, j)
    ensures Legal(m, Op.Alloc) && r / 32 < |m.ids| && Step(m, Op.Alloc) == Take(m, r)
  {
    assert r in FreeIds(m);
    var l := Least(FreeIds(m));
    assert l == r;
  }

  /** A map filled word by word as `bcm_mwbmap_init` does is the initial map. */
  lemma IsInitMap(m: Map, n: nat)
    requires n <= ITEMS_MAX && m.items == n == m.ifree && m.total == n % 0x1_0000
    requires |m.wd| == WDMAP_MAX && |m.cnt| == WORDS_MAX && |m.ids| == Words(n)
    requires forall v: nat :: v < |m.wd| ==> m.wd[v] == FirstBits(Words(n), v)
    requires forall w: nat :: w < |m.cnt| ==> m.cnt[w] == if w < Words(n) then PopCount(FirstBits(n, w)) else 0
    requires forall w: nat :: w < |m.ids| ==> m.ids[w] == FirstBits(n, w)
    ensures m == InitMap(n) && Consistent(m)
  {
    hide FirstBits, PopCount, Consistent;
    InitConsistent(n);
    assert m.wd == InitMap(n).wd && m.cnt == InitMap(n).cnt && m.ids == InitMap(n).ids;
  }

  class Mwbmap {
    const total: uint16
    ghost const items: nat
    var wmaps: nat
    var imaps: nat
    var ifree: int
    const wdBitmap: array<uint32>
    const wdCount: array<int>
    const idBitmap: array<uint32>

    ghost function State(): Map
      reads this, wdBitmap, wdCount, idBitmap
    {
      Map(items, total, ifree, wdBitmap[..], wdCount[..], idBitmap[..])
    }

    ghost predicate Valid()
      reads this, wdBitmap, wdCount, idBitmap
    {
      && wdBitmap != idBitmap
      && imaps == idBitmap.Length && wmaps == Words(imaps)
      && Consistent(State())
    }

    /** `bcm_mwbmap_init`. Of 65536 items the 16-bit `total` keeps nothing. */
    constructor (itemsMax: nat)
      requires itemsMax <= ITEMS_MAX
      ensures Valid() && State() == InitMap(itemsMax)
      ensures fresh(wdBitmap) && fresh(wdCount) && fresh(idBitmap)
    {
      var words := itemsMax / 32 + (if itemsMax % 32 != 0 then 1 else 0);
      total, ifree, items := itemsMax % 0x1_0000, itemsMax, itemsMax;
      imaps := words;
      wmaps := words / 32 + (if words % 32 != 0 then 1 else 0);
      wdBitmap := new uint32[WDMAP_MAX](_ => 0);
      wdCount := new int[WORDS_MAX](_ => 0);
      idBitmap := new uint32[words](_ => 0);
      new;
      FillWords(idBitmap, itemsMax);
      FillCounts(wdCount, itemsMax);
      FillWords(wdBitmap, imaps);
      hide InitMap, Consistent, FirstBits, PopCount;
      IsInitMap(State(), itemsMax);
    }

    /** `bcm_mwbmap_alloc` */
    method Alloc() returns (r: uint32)
      requires Valid()
      modifies this`ifree, wdBitmap, wdCount, idBitmap
      ensures Valid()
      ensures r == INVALID_IDX ==>
                State() == old(State()) && ifree == 0 && forall j: nat :: !IsFree(State(), j)
      ensures r != INVALID_IDX ==>
                && IsFree(old(State()), r) && (forall j: nat :: j < r ==> !IsFree(old(State()), j))
                && State() == Take(old(State()), r)
    {
      hide Consistent, LowestSet, PopCount, Bit, IsFree, Take, Picks;
      ghost var m := State();
      assert Shaped(m) by { ConsistentShape(m); }
      var v := 0;
      while v < wmaps
        invariant v <= wmaps && State() == m
        invariant forall u: nat :: u < v ==> m.wd[u] == 0
      {
        if wdBitmap[v] != 0 {
          ghost var w, i := SearchPicks(m, v);
          forall j: nat | j < i ensures !IsFree(m, j) { SearchIsLeast(m, v, w, i, j); }
          r := TakeLowest(v, w, i);
          return;
        }
        v := v + 1;
      }
      SearchFails(m);
      r := INVALID_IDX;
    }

    /** The body of the allocation loop for the first first-level word that is not empty. */
    method TakeLowest(v: nat, ghost w0: nat, ghost i: nat) returns (r: uint32)
      requires Valid() && v < wmaps && Picks(State(), v, w0, i) && IsFree(State(), i)
      modifies this`ifree, wdBitmap, wdCount, idBitmap
      ensures Valid() && r == i && r != INVALID_IDX
      ensures i / 32 < |old(State()).ids| && State() == Take(old(State()), i)
    {
      hide LowestSet, PopCount, Bit, Flip, SumPop, Consistent, IsFree;
      ghost var m := State();
      assert Shaped(m) by { ConsistentShape(m); }
      TakeKeeps(m, i);
      var clz := ZerosAboveLowest(wdBitmap[v]);
      var bitix := if clz <= 31 then 31 - clz else 0;
      var w := 32 * v + bitix;
      assert w == w0 && w / 32 == v && w % 32 == bitix;

      wdCount[w] := wdCount[w] - 1;
      var count := wdCount[w];
      if count == 0 {
        wdBitmap[v] := Flip(wdBitmap[v], bitix);
      }
      clz := ZerosAboveLowest(idBitmap[w]);
      var id := 32 * w + 31 - clz;
      assert id == i && i / 32 == w && i % 32 == 31 - clz;
      ifree := ifree - 1;
      idBitmap[w] := Flip(idBitmap[w], 31 - clz);
      ghost var t := Take(m, i);
      assert State().ids == t.ids && State().wd == t.wd && State().cnt == t.cnt;
      r := id;
    }

    /** `bcm_mwbmap_force` on a free id. */
    method Force(bitix: nat)
      requires Valid() && bitix < total && IsFree(State(), bitix)
      modifies this`ifree, wdBitmap, wdCount, idBitmap
      ensures Valid() && bitix / 32 < |old(State()).ids| && State() == Take(old(State()), bitix)
    {
      hide PopCount, Bit, Flip, SumPop;
      ghost var m := State();
      TakeKeeps(m, bitix);
      var w := bitix / 32;
      ifree := ifree - 1;
      idBitmap[w] := Flip(idBitmap[w], bitix % 32);
      wdCount[w] := wdCount[w] - 1;
      var count := wdCount[w];
      if count == 0 {
        wdBitmap[w / 32] := Flip(wdBitmap[w / 32], w % 32);
      }
      ghost var t := Take(m, bitix);
      assert State().ids == t.ids && State().wd == t.wd && State().cnt == t.cnt;
    }

    /** `bcm_mwbmap_free` on an id in use. */
    method Free(bitix: nat)
      requires Valid() && bitix < total && !IsFree(State(), bitix)
      modifies this`ifree, wdBitmap, wdCount, idBitmap
      ensures Valid() && bitix / 32 < |old(State()).ids| && State() == Release(old(State()), bitix)
    {
      hide PopCount, Bit, Raise, SumPop;
      ghost var m := State();
      ReleaseKeeps(m, bitix);
      var w := bitix / 32;
      ifree := ifree + 1;
      idBitmap[w] := Raise(idBitmap[w], bitix % 32);
      wdCount[w] := wdCount[w] + 1;
      wdBitmap[w / 32] := Raise(wdBitmap[w / 32], w % 32);
      ghost var t := Release(m, bitix);
      assert State().ids == t.ids && State().wd == t.wd && State().cnt == t.cnt;
    }

    /** `bcm_mwbmap_audit` on any map of the right shape: whether every assertion in it holds. */
    method Audit() returns (ok: bool)
      requires imaps == idBitmap.Length && wmaps == Words(imaps) && Auditable(State())
      ensures ok <==> AuditHolds(State())
    {
      hide Bit, PopCount, AuditedBelow, Marked;
      ok := true;
      var freeCnt, v := 0, 0;
      ghost var m := State();
      AuditStart(m);
      while v < wmaps
        invariant 0 <= v <= wmaps
        invariant ok <==> AuditedBelow(m, 32 * v)
        invariant freeCnt == Marked(m, 32 * v)
      {
        var bitix := 0;
        while bitix < 32
          invariant 0 <= bitix <= 32
          invariant ok <==> AuditedBelow(m, 32 * v + bitix)
          invariant freeCnt == Marked(m, 32 * v + bitix)
        {
          var w := 32 * v + bitix;
          assert w / 32 == v && w % 32 == bitix;
          AuditNext(m, w);
          if Bit(wdBitmap[v], bitix) {
            var count := wdCount[w];
            ok := ok && count == PopCount(idBitmap[w]) && count != 0;
            freeCnt := freeCnt + count;
          }
          bitix := bitix + 1;
        }
        v := v + 1;
      }
      NoneMarked(m, 32 * wmaps, 32 * WDMAP_MAX);
      ok := ok && freeCnt == ifree;
    }
  }

  /** A map of the right shape, whose first level marks no word that does not exist. */
  ghost predicate Auditable(m: Map)
  {
    Shaped(m) && forall w: nat :: |m.ids| <= w < 32 * WDMAP_MAX ==> !Bit(m.wd[w / 32], w % 32)
  }

  /** The audit's assertions on one first-level position. */
  predicate AuditWord(m: Map, w: nat)
    requires |m.wd| == WDMAP_MAX && |m.cnt| == WORDS_MAX && w < 32 * WDMAP_MAX
  {
    Bit(m.wd[w / 32], w % 32) ==> w < |m.ids| && m.cnt[w] == PopCount(m.ids[w]) && m.cnt[w] != 0
  }

  /** The counts of the words marked among the first `n`. */
  function Marked(m: Map, n: nat): int
    requires |m.wd| == WDMAP_MAX && |m.cnt| == WORDS_MAX && n <= 32 * WDMAP_MAX
  {
    if n == 0 then 0 else Marked(m, n - 1) + if Bit(m.wd[(n - 1) / 32], (n - 1) % 32) then m.cnt[n - 1] else 0
  }

  /** All the audit asserts: every marked word has free ids and their right count, and the counts add up. */
  ghost predicate AuditHolds(m: Map)
    requires Shaped(m)
  {
    AuditedBelow(m, 32 * WDMAP_MAX) && Marked(m, 32 * WDMAP_MAX) == m.ifree
  }

  ghost predicate AuditedBelow(m: Map, n: nat)
    requires |m.wd| == WDMAP_MAX && |m.cnt| == WORDS_MAX && n <= 32 * WDMAP_MAX
  {
    forall w: nat :: w < n ==> AuditWord(m, w)
  }

  lemma AuditStart(m: Map)
    requires Shaped(m)
    ensures AuditedBelow(m, 0) && Marked(m, 0) == 0
  {
  }

  lemma AuditNext(m: Map, n: nat)
    requires Shaped(m) && n < 32 * WDMAP_MAX
    ensures AuditedBelow(m, n + 1) <==> AuditedBelow(m, n) && AuditWord(m, n)
    ensures Marked(m, n + 1) == Marked(m, n) + if Bit(m.wd[n / 32], n % 32) then m.cnt[n] else 0
  {
    hide AuditWord, Bit;
  }

  lemma {:induction false} NoneMarked(m: Map, n: nat, k: nat)
    requires Auditable(m) && |m.ids| <= n <= k <= 32 * WDMAP_MAX
    ensures Marked(m, k) == Marked(m, n)
    ensures AuditedBelow(m, k) <==> AuditedBelow(m, n)
    decreases k
  {
    hide Bit, PopCount;
    if n == k {
    } else {
      NoneMarked(m, n, k - 1);
    }
  }

  /** The audit passes on every consistent map. */
  lemma AuditPasses(m: Map)
    requires Consistent(m)
    ensures Auditable(m) && AuditHolds(m)
  {
    hide Bit, PopCount, SumPop;
    forall w: nat | w < 32 * WDMAP_MAX ensures AuditWord(m, w) {
      if w < |m.ids| {
        assert WordAgrees(m, w);
        PopZero(m.ids[w]);
      }
    }
    MarkedIsSum(m, |m.ids|);
    NoneMarked(m, |m.ids|, 32 * WDMAP_MAX);
    assert m.ids[..|m.ids|] == m.ids;
  }

  lemma {:induction false} MarkedIsSum(m: Map, n: nat)
    requires Consistent(m) && Shaped(m) && n <= |m.ids|
    ensures Marked(m, n) == SumPop(m.ids[..n])
    decreases n
  {
    hide Bit;
    if n == 0 {
    } else {
      MarkedIsSum(m, n - 1);
      assert WordAgrees(m, n - 1);
      assert m.ids[..n][..n - 1] == m.ids[..n - 1];
    }
  }

  lemma ConsistentShape(m: Map)
    requires Consistent(m)
    ensures Shaped(m)
  {
  }

  /** The bitmap loops of `bcm_mwbmap_init`: all words set, then the last one cut to size. */
  method FillWords(a: array<uint32>, n: nat)
    requires Words(n) <= a.Length && forall w :: 0 <= w < a.Length ==> a[w] == 0
    modifies a
    ensures forall w: nat :: w < a.Length ==> a[w] == FirstBits(n, w)
  {
    hide FirstBits, Cut, Bit;
    var words, w := Words(n), 0;
    while w < words
      invariant 0 <= w <= words
      invariant forall u :: 0 <= u < w ==> a[u] == UINT32_MAX
      invariant forall u :: w <= u < a.Length ==> a[u] == 0
    {
      a[w] := UINT32_MAX;
      w := w + 1;
    }
    var extra := n % 32;
    if extra != 0 {
      CutWord(n);
      a[words - 1] := Cut(a[words - 1], extra);
    }
    forall u: nat | u < a.Length ensures a[u] == FirstBits(n, u) {
      PlainWord(n, u);
    }
  }

  lemma PlainWord(n: nat, w: nat)
    ensures 32 * (w + 1) <= n ==> FirstBits(n, w) == UINT32_MAX
    ensures 32 * w >= n ==> FirstBits(n, w) == 0
  {
    Powers();
    assert Ones(32) == UINT32_MAX;
  }

  /** `word ^ (~0U << extra)` */
  function Cut(x: uint32, extra: nat): (r: uint32)
    requires extra < 32
    ensures forall k: nat :: Bit(r, k) == (Bit(x, k) != (extra <= k < 32))
  {
    Powers();
    assert Ones(32) == UINT32_MAX;
    var mask := Trunc(Shl(UINT32_MAX, extra), 32);
    XorFits(x, mask, 32);
    Xor(x, mask)
  }

  lemma CutWord(n: nat)
    requires n % 32 != 0
    ensures Cut(UINT32_MAX, n % 32) == FirstBits(n, Words(n) - 1)
  {
    hide Bit, Cut, FirstBits;
    Powers();
    assert Ones(32) == UINT32_MAX;
    var f := FirstBits(n, Words(n) - 1);
    HighBitsClear(f, 32);
    HighBitsClear(UINT32_MAX, 32);
    SameBits(Cut(UINT32_MAX, n % 32), f);
  }

  method FillCounts(a: array<int>, n: nat)
    requires Words(n) <= a.Length && forall w :: 0 <= w < a.Length ==> a[w] == 0
    modifies a
    ensures forall w: nat :: w < a.Length ==> a[w] == if w < Words(n) then PopCount(FirstBits(n, w)) else 0
  {
    hide FirstBits, PopCount;
    var words := Words(n);
    var w := 0;
    while w < words
      invariant 0 <= w <= words
      invariant forall u :: 0 <= u < w ==> a[u] == 32
      invariant forall u :: w <= u < a.Length ==> a[u] == 0
    {
      a[w] := 32;
      w := w + 1;
    }
    var extra := n % 32;
    if extra != 0 {
      a[words - 1] := extra;
    }
  }
}
