/** The state of the two-level bitmap id allocator of src/bcmutils.c, as a value: what makes it
    consistent, what taking and releasing an id does to it, and why both keep it consistent. */
module IdMap {
  import opened Bits

  const WDMAP_MAX: nat := 64
  const WORDS_MAX: nat := 2048

  const ITEMS_MAX: nat := 0x1_0000

  /** `wd` is the first level (one bit per id word), `ids` the second (one bit per id, set while the
      id is free), `cnt` the free ids counted per id word. There are `items` ids; `total` is their number
      as the 16-bit field holds it. */
  datatype Map = Map(items: nat, total: uint16, ifree: int, wd: seq<uint32>, cnt: seq<int>, ids: seq<uint32>)

  /** 32-bit words needed for `n` bits. */
  function Words(n: nat): nat { (n + 31) / 32 }

  /** Set bits in all words together. */
  function SumPop(s: seq<nat>): nat
  {
    if s == [] then 0 else SumPop(s[..|s| - 1]) + PopCount(s[|s| - 1])
  }

  predicate IsFree(m: Map, i: nat)
  {
    i / 32 < |m.ids| && Bit(m.ids[i / 32], i % 32)
  }

  /** The count and the first-level bit of one id word agree with the word. */
  predicate WordAgrees(m: Map, w: nat)
    requires |m.wd| == WDMAP_MAX && |m.cnt| == WORDS_MAX && w < |m.ids| <= WORDS_MAX
  {
    m.cnt[w] == PopCount(m.ids[w]) && (Bit(m.wd[w / 32], w % 32) <==> m.ids[w] != 0)
  }

  predicate Shaped(m: Map)
  {
    && m.items <= ITEMS_MAX && m.total == m.items % 0x1_0000
    && |m.wd| == WDMAP_MAX && |m.cnt| == WORDS_MAX && |m.ids| == Words(m.items)
  }

  /** The three views agree, and no bit is set for a word or an id that does not exist. */
  ghost predicate Consistent(m: Map)
  {
    && Shaped(m)
    && (forall w: nat :: w < |m.ids| ==> WordAgrees(m, w))
    && (forall w: nat :: |m.ids| <= w < 32 * WDMAP_MAX ==> !Bit(m.wd[w / 32], w % 32))
    && (forall i: nat :: IsFree(m, i) ==> i < m.items)
    && m.ifree == SumPop(m.ids)
  }

  // ----- single words -----

  /** `x ^ (1 << k)` and `x | (1 << k)` on 32-bit words. */
  function Flip(x: uint32, k: nat): (r: uint32)
    requires k < 32
    ensures forall j: nat :: Bit(r, j) == (Bit(x, j) != (j == k))
  {
    Powers(); OneBit(k);
    FitsIfClear(Shl(1, k), 32);
    XorFits(x, Shl(1, k), 32);
    Xor(x, Shl(1, k))
  }

  function Raise(x: uint32, k: nat): (r: uint32)
    requires k < 32
    ensures forall j: nat :: Bit(r, j) == (Bit(x, j) || j == k)
    ensures r != 0
  {
    Powers(); OneBit(k); ZeroBit(k);
    FitsIfClear(Shl(1, k), 32);
    OrFits(x, Shl(1, k), 32);
    Or(x, Shl(1, k))
  }

  /** One more set bit is one more in the count. */
  lemma {:induction false} PopOneMore(x: nat, y: nat, k: nat)
    requires !Bit(x, k) && forall j: nat :: Bit(y, j) == (Bit(x, j) || j == k)
    ensures PopCount(y) == PopCount(x) + 1
    decreases k
  {
    var z: nat := 0;
    assert Bit(y, z) == (Bit(x, z) || z == k);
    forall j: nat ensures Bit(y / 2, j) == (Bit(x / 2, j) || j + 1 == k) {
      assert Bit(y, j + 1) == (Bit(x, j + 1) || j + 1 == k);
    }
    if k == 0 {
      SameBits(y / 2, x / 2);
    } else {
      PopOneMore(x / 2, y / 2, k - 1);
    }
  }

  lemma {:induction false} PopOnes(n: nat)
    ensures PopCount(Ones(n)) == n
  {
    if n == 0 {
    } else {
      assert Ones(n) == 1 + 2 * Ones(n - 1);
      PopOnes(n - 1);
    }
  }

  // ----- all words -----

  lemma {:induction false} SumPopUpdate(s: seq<nat>, w: nat, y: nat)
    requires w < |s|
    ensures SumPop(s[w := y]) == SumPop(s) - PopCount(s[w]) + PopCount(y)
  {
    var n := |s| - 1;
    if w == n {
      assert s[w := y][..n] == s[..n];
    } else {
      assert s[w := y][..n] == s[..n][w := y];
      SumPopUpdate(s[..n], w, y);
    }
  }

  /** The count is zero exactly when no id is free. */
  lemma {:induction false} SumPopZero(s: seq<nat>)
    ensures SumPop(s) == 0 <==> forall w: nat :: w < |s| ==> s[w] == 0
  {
    if s == [] {
    } else {
      var n := |s| - 1;
      SumPopZero(s[..n]);
      assert forall w: nat :: w < n ==> s[w] == s[..n][w];
    }
  }

  // ----- taking and releasing an id -----

  /** The state after id `i` leaves the free set: its bit, its word's count and the total count go
      down, and the word's first-level bit is dropped with its last free id. */
  function Take(m: Map, i: nat): Map
    requires Shaped(m) && i / 32 < |m.ids|
  {
    var w := i / 32;
    var count := m.cnt[w] - 1;
    m.(ifree := m.ifree - 1,
       ids := m.ids[w := Flip(m.ids[w], i % 32)],
       cnt := m.cnt[w := count],
       wd := if count == 0 then m.wd[w / 32 := Flip(m.wd[w / 32], w % 32)] else m.wd)
  }

  /** The state after id `i` comes back. */
  function Release(m: Map, i: nat): Map
    requires Shaped(m) && i / 32 < |m.ids|
  {
    var w := i / 32;
    m.(ifree := m.ifree + 1,
       ids := m.ids[w := Raise(m.ids[w], i % 32)],
       cnt := m.cnt[w := m.cnt[w] + 1],
       wd := m.wd[w / 32 := Raise(m.wd[w / 32], w % 32)])
  }

  lemma TakeFree(m: Map, i: nat)
    requires Consistent(m) && IsFree(m, i)
    ensures Shaped(m) && i / 32 < |m.ids|
    ensures forall j: nat :: IsFree(Take(m, i), j) <==> IsFree(m, j) && j != i
  {
    hide Bit, Flip, PopCount;
  }

  lemma TakeKeeps(m: Map, i: nat)
    requires Consistent(m) && IsFree(m, i)
    ensures Shaped(m) && i / 32 < |m.ids| && Consistent(Take(m, i))
  {
    hide Bit, Flip, PopCount, SumPop;
    var w, n := i / 32, Take(m, i);
    assert WordAgrees(m, w);
    TakeFree(m, i);
    PopOneMore(n.ids[w], m.ids[w], i % 32);
    SumPopUpdate(m.ids, w, n.ids[w]);
    forall v: nat | v < |n.ids| ensures WordAgrees(n, v) {
      assert WordAgrees(m, v);
      SamePosition(v, w);
    }
    forall v: nat | |n.ids| <= v < 32 * WDMAP_MAX ensures !Bit(n.wd[v / 32], v % 32) {
      SamePosition(v, w);
    }
  }

  lemma SamePosition(v: nat, w: nat)
    ensures v / 32 == w / 32 && v % 32 == w % 32 <==> v == w
  {
  }

  lemma ReleaseFree(m: Map, i: nat)
    requires Consistent(m) && i < m.items
    ensures Shaped(m) && i / 32 < |m.ids|
    ensures forall j: nat :: IsFree(Release(m, i), j) <==> IsFree(m, j) || j == i
  {
    hide Bit, Raise, PopCount;
  }

  lemma ReleaseKeeps(m: Map, i: nat)
    requires Consistent(m) && i < m.items && !IsFree(m, i)
    ensures Shaped(m) && i / 32 < |m.ids| && Consistent(Release(m, i))
  {
    hide Bit, Raise, PopCount, SumPop;
    var w, n := i / 32, Release(m, i);
    assert WordAgrees(m, w);
    ReleaseFree(m, i);
    PopOneMore(m.ids[w], n.ids[w], i % 32);
    SumPopUpdate(m.ids, w, n.ids[w]);
    forall v: nat | v < |n.ids| ensures WordAgrees(n, v) {
      assert WordAgrees(m, v);
      SamePosition(v, w);
    }
    forall v: nat | |n.ids| <= v < 32 * WDMAP_MAX ensures !Bit(n.wd[v / 32], v % 32) {
      SamePosition(v, w);
    }
  }

  // ----- the initial map -----

  /** The first `n` bits of a bitmap, word `w` of it. */
  function FirstBits(n: nat, w: nat): (r: uint32)
    ensures forall k: nat :: k < 32 ==> (Bit(r, k) <==> 32 * w + k < n)
    ensures PopCount(r) == if 32 * w >= n then 0 else if 32 * (w + 1) <= n then 32 else n - 32 * w
  {
    Powers(); ZeroBits();
    var k := if 32 * w >= n then 0 else if 32 * (w + 1) <= n then 32 else n - 32 * w;
    PopOnes(k);
    OnesFit(k);
    Ones(k)
  }

  lemma {:induction false} OnesFit(k: nat)
    requires k <= 32
    ensures Ones(k) < 0x1_0000_0000
  {
    Powers();
    FitsIfClear(Ones(k), 32);
  }

  function InitMap(n: nat): (m: Map)
    requires n <= ITEMS_MAX
    ensures Shaped(m)
  {
    Map(n, n % 0x1_0000, n,
        seq(WDMAP_MAX, v requires v >= 0 => FirstBits(Words(n), v)),
        seq(WORDS_MAX, w requires w >= 0 => if w < Words(n) then PopCount(FirstBits(n, w)) else 0),
        seq(Words(n), w requires w >= 0 => FirstBits(n, w)))
  }

  lemma {:induction false} InitSum(n: nat, w: nat)
    requires n <= ITEMS_MAX && w <= Words(n)
    ensures SumPop(InitMap(n).ids[..w]) == if 32 * w <= n then 32 * w else n
    decreases w
  {
    hide FirstBits, Words;
    if w == 0 {
    } else {
      var s := InitMap(n).ids[..w];
      InitSum(n, w - 1);
      assert s[..w - 1] == InitMap(n).ids[..w - 1];
      assert s[w - 1] == FirstBits(n, w - 1);
      assert Words(n) * 32 < n + 32 by { WordsBound(n); }
    }
  }

  lemma WordsBound(n: nat)
    ensures n <= 32 * Words(n) < n + 32
  {
  }

  /** The initial map is consistent and every id below `n` is free in it. */
  lemma InitConsistent(n: nat)
    requires n <= ITEMS_MAX
    ensures Consistent(InitMap(n))
    ensures forall i: nat :: IsFree(InitMap(n), i) <==> i < n
  {
    hide FirstBits, PopCount, Bit, SumPop;
    var m := InitMap(n);
    WordsBound(n);
    InitSum(n, Words(n));
    assert m.ids[..Words(n)] == m.ids;
    forall i: nat ensures IsFree(m, i) <==> i < n {
      if i / 32 < |m.ids| { assert m.ids[i / 32] == FirstBits(n, i / 32); }
    }
    forall w: nat | w < |m.ids| ensures WordAgrees(m, w) {
      assert m.wd[w / 32] == FirstBits(Words(n), w / 32);
      assert m.ids[w] == FirstBits(n, w);
      assert PopCount(m.ids[w]) > 0;
      PopZero(m.ids[w]);
    }
    forall w: nat | |m.ids| <= w < 32 * WDMAP_MAX ensures !Bit(m.wd[w / 32], w % 32) {
      assert m.wd[w / 32] == FirstBits(Words(n), w / 32);
    }
  }

  lemma PopZero(x: nat)
    ensures PopCount(x) == 0 <==> x == 0
  {
  }

  // ----- whole runs -----

  datatype Op = Alloc | Force(id: nat) | Free(id: nat)

  /** What the callers owe: only free ids are forced and only ids in use are freed, and both lie below
      `total`. */
  predicate Legal(m: Map, op: Op)
  {
    match op
    case Alloc => true
    case Force(i) => i < m.total && IsFree(m, i)
    case Free(i) => i < m.total && !IsFree(m, i)
  }

  ghost function FreeIds(m: Map): set<nat>
  {
    set i: nat | i < m.items && IsFree(m, i)
  }

  lemma {:induction false} LeastBelow(s: set<nat>, k: nat)
    requires k in s
    ensures exists i :: i in s && forall j :: j in s ==> i <= j
    decreases k
  {
    if exists j :: j in s && j < k {
      var j :| j in s && j < k;
      LeastBelow(s, j);
    }
  }

  lemma LeastExists(s: set<nat>)
    requires s != {}
    ensures exists i :: i in s && forall j :: j in s ==> i <= j
  {
    var k :| k in s;
    LeastBelow(s, k);
  }

  function Least(s: set<nat>): (i: nat)
    requires s != {}
    ensures i in s && forall j :: j in s ==> i <= j
  {
    LeastExists(s);
    var i :| i in s && forall j :: j in s ==> i <= j;
    i
  }

  /** One call, on the bitmaps. */
  ghost function Step(m: Map, op: Op): Map
    requires Consistent(m) && Legal(m, op)
  {
    match op
    case Alloc => if FreeIds(m) == {} then m else Take(m, Least(FreeIds(m)))
    case Force(i) => Take(m, i)
    case Free(i) => Release(m, i)
  }

  /** One call, on the set of free ids: allocation hands out the least one. */
  function SetStep(s: set<nat>, op: Op): set<nat>
  {
    match op
    case Alloc => if s == {} then s else s - {Least(s)}
    case Force(i) => s - {i}
    case Free(i) => s + {i}
  }

  /** A call keeps the map consistent and is the set operation on the free ids. */
  lemma StepRefines(m: Map, op: Op)
    requires Consistent(m) && Legal(m, op)
    ensures var n := Step(m, op);
            Consistent(n) && n.items == m.items && FreeIds(n) == SetStep(FreeIds(m), op)
    ensures m.ifree == |FreeIds(m)| ==> Step(m, op).ifree == |FreeIds(Step(m, op))|
  {
    hide IsFree, SumPop, Bit, PopCount, Flip, Raise, WordAgrees;
    var n := Step(m, op);
    match op
    case Alloc =>
      if FreeIds(m) != {} {
        var i := Least(FreeIds(m));
        TakeFree(m, i);
        TakeKeeps(m, i);
        assert FreeIds(n) == FreeIds(m) - {i};
      }
    case Force(i) =>
      TakeFree(m, i);
      TakeKeeps(m, i);
      assert i in FreeIds(m);
      assert FreeIds(n) == FreeIds(m) - {i};
    case Free(i) =>
      ReleaseFree(m, i);
      ReleaseKeeps(m, i);
      assert FreeIds(n) == FreeIds(m) + {i};
  }

  /** `m` is reached from `InitMap(n)` by the calls `ops`, each legal when made. */
  ghost predicate Reaches(n: nat, ops: seq<Op>, m: Map)
    requires n <= ITEMS_MAX
  {
    if ops == [] then m == InitMap(n)
    else exists p: Map :: Reaches(n, ops[..|ops| - 1], p) && Consistent(p) &&
                          Legal(p, ops[|ops| - 1]) && m == Step(p, ops[|ops| - 1])
  }

  /** The ids below `n`. */
  function Below(n: nat): (s: set<nat>)
    ensures forall i: nat :: i in s <==> i < n
    ensures |s| == n
  {
    if n == 0 then {} else Below(n - 1) + {n - 1}
  }

  function SetRun(s: set<nat>, ops: seq<Op>): set<nat>
  {
    if ops == [] then s else SetStep(SetRun(s, ops[..|ops| - 1]), ops[|ops| - 1])
  }

  /** After any run of legal calls the three views agree, the free count is the number of free ids,
      and the free ids are those of an allocator that keeps a plain set. */
  lemma {:induction false} RunRefines(n: nat, ops: seq<Op>, m: Map)
    requires n <= ITEMS_MAX && Reaches(n, ops, m)
    ensures Consistent(m) && m.items == n
    ensures FreeIds(m) == SetRun(Below(n), ops)
    ensures m.ifree == |FreeIds(m)|
    decreases |ops|
  {
    hide Consistent, IsFree, Step, Legal;
    if ops == [] {
      InitConsistent(n);
      assert FreeIds(m) == Below(n);
    } else {
      var p: Map :| Reaches(n, ops[..|ops| - 1], p) && Consistent(p) &&
                    Legal(p, ops[|ops| - 1]) && m == Step(p, ops[|ops| - 1]);
      RunRefines(n, ops[..|ops| - 1], p);
      StepRefines(p, ops[|ops| - 1]);
    }
  }

  /** With 65536 items `total` is 0, so no id can ever be forced or freed: ids are handed out in order and
      never come back. */
  lemma FullMapDrains(n: nat, ops: seq<Op>, m: Map)
    requires n == ITEMS_MAX && Reaches(n, ops, m)
    ensures forall i: nat :: !Legal(m, Force(i)) && !Legal(m, Free(i))
    ensures FreeIds(m) == Below(n) - Below(|ops|)
  {
    hide IsFree, Reaches, Below, Consistent;
    RunRefines(n, ops, m);
    FullTotal(m);
    OnlyAllocs(n, ops, m);
    AllocRun(n, ops);
  }

  lemma {:induction false} OnlyAllocs(n: nat, ops: seq<Op>, m: Map)
    requires n == ITEMS_MAX && Reaches(n, ops, m)
    ensures forall i: nat :: i < |ops| ==> ops[i] == Alloc
    decreases |ops|
  {
    hide IsFree, Step, Consistent, Below, InitMap;
    if ops == [] {
    } else {
      var k := |ops| - 1;
      var p: Map :| Reaches(n, ops[..k], p) && Consistent(p) && Legal(p, ops[k]) && m == Step(p, ops[k]);
      OnlyAllocs(n, ops[..k], p);
      RunRefines(n, ops[..k], p);
      FullTotal(p);
    }
  }

  lemma FullTotal(m: Map)
    requires Consistent(m) && m.items == ITEMS_MAX
    ensures m.total == 0
  {
  }

  lemma {:induction false} AllocRun(n: nat, ops: seq<Op>)
    requires forall i: nat :: i < |ops| ==> ops[i] == Alloc
    ensures SetRun(Below(n), ops) == Below(n) - Below(|ops|)
    decreases |ops|
  {
    hide SetStep;
    if ops == [] {
    } else {
      AllocRun(n, ops[..|ops| - 1]);
      DrainOne(n, |ops| - 1);
    }
  }

  lemma DrainOne(n: nat, k: nat)
    ensures SetStep(Below(n) - Below(k), Alloc) == Below(n) - Below(k + 1)
  {
    hide Below;
    var s := Below(n) - Below(k);
    if k < n {
      assert k in s;
      assert Least(s) == k;
    }
  }
}
