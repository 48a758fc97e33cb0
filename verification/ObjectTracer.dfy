/** The object tracer `bcm_object_*` of src/bcmutils.c: a fixed array of records kept on two circular
    doubly linked lists, the active and the free ones. A C pointer into the array is an index, and
    `NIL` is the null pointer. */
module ObjectTracer {
  import opened Bits

  const NIL: int := -1

  datatype Record = Record(prior: int, next: int, flag: uint32, obj: nat, sn: uint32, state: uint32)

  // ----- circular lists -----

  predicate Distinct(l: seq<nat>)
  {
    forall i, j :: 0 <= i < j < |l| ==> l[i] != l[j]
  }

  function After(l: seq<nat>, k: nat): nat
    requires k < |l|
  {
    if k + 1 == |l| then l[0] else l[k + 1]
  }

  function Before(l: seq<nat>, k: nat): nat
    requires k < |l|
  {
    if k == 0 then l[|l| - 1] else l[k - 1]
  }

  predicate Linked(s: seq<Record>, l: seq<nat>, k: nat)
    requires k < |l| && l[k] < |s|
  {
    s[l[k]].next == After(l, k) && s[l[k]].prior == Before(l, k)
  }

  /** The records `l`, in this order, form a circular doubly linked list from `head` to `tail`. */
  ghost predicate Ring(s: seq<Record>, head: int, tail: int, l: seq<nat>)
  {
    && Distinct(l)
    && (forall k: nat :: k < |l| ==> l[k] < |s|)
    && (if l == [] then head == NIL && tail == NIL else head == l[0] && tail == l[|l| - 1])
    && (forall k: nat :: k < |l| ==> Linked(s, l, k))
  }

  /** The objects recorded by the records `l`. */
  function ObjsOn(s: seq<Record>, l: seq<nat>): (t: seq<nat>)
    requires forall k: nat :: k < |l| ==> l[k] < |s|
    ensures |t| == |l|
  {
    seq(|l|, k requires 0 <= k < |l| => s[l[k]].obj)
  }

  function Without(l: seq<nat>, k: nat): seq<nat>
    requires k < |l|
  {
    l[..k] + l[k + 1..]
  }

  /** Only links differ. */
  ghost predicate SamePayload(s0: seq<Record>, s1: seq<Record>)
  {
    |s1| == |s0| && forall i :: 0 <= i < |s0| ==> s1[i] == s0[i].(prior := s1[i].prior, next := s1[i].next)
  }

  /** Only links differ, and record `x` carries the object `obj`. */
  ghost predicate Renamed(s0: seq<Record>, s1: seq<Record>, x: nat, obj: nat)
    requires x < |s0|
  {
    SamePayload(s0[x := s0[x].(obj := obj)], s1)
  }

  /** Records off the list `l` are untouched. */
  ghost predicate OnlyOn(l: seq<nat>, s0: seq<Record>, s1: seq<Record>)
  {
    |s1| == |s0| && forall i: nat :: i < |s0| && i !in l ==> s1[i] == s0[i]
  }

  /** A list none of whose records changed is still the same list. */
  lemma RingFrame(s0: seq<Record>, s1: seq<Record>, head: int, tail: int, l: seq<nat>, m: seq<nat>)
    requires Ring(s0, head, tail, l) && OnlyOn(m, s0, s1)
    requires forall i: nat :: i in l ==> i !in m
    ensures Ring(s1, head, tail, l)
  {
    forall k: nat | k < |l| ensures Linked(s1, l, k) {
      assert Linked(s0, l, k) && l[k] in l;
    }
  }

  /** Writing payload fields keeps every list. */
  lemma Relabel(s0: seq<Record>, s1: seq<Record>, head: int, tail: int, l: seq<nat>)
    requires Ring(s0, head, tail, l) && |s1| == |s0|
    requires forall i :: 0 <= i < |s0| ==> s1[i].prior == s0[i].prior && s1[i].next == s0[i].next
    ensures Ring(s1, head, tail, l)
  {
    forall k: nat | k < |l| ensures Linked(s1, l, k) {
      assert Linked(s0, l, k);
    }
  }

  /** The two pointer writes of `bcm_object_rm_list`. */
  function Unlinked(s: seq<Record>, x: nat): (r: seq<Record>)
    requires x < |s| && 0 <= s[x].next < |s| && 0 <= s[x].prior < |s|
    ensures |r| == |s|
  {
    var s1 := s[s[x].next := s[s[x].next].(prior := s[x].prior)];
    if 0 <= s1[x].prior < |s| then s1[s1[x].prior := s1[s1[x].prior].(next := s1[x].next)] else s1
  }

  lemma UnlinkedNodes(s: seq<Record>, head: int, tail: int, l: seq<nat>, k: nat)
    requires Ring(s, head, tail, l) && k < |l|
    ensures l[k] < |s| && 0 <= s[l[k]].next < |s| && 0 <= s[l[k]].prior < |s|
    ensures forall i :: 0 <= i < |s| ==>
              (Unlinked(s, l[k])[i] ==
               s[i].(prior := if i == After(l, k) then Before(l, k) else s[i].prior,
                     next := if i == Before(l, k) then After(l, k) else s[i].next))
  {
    assert Linked(s, l, k);
  }

  lemma UnlinkRing(s: seq<Record>, head: int, tail: int, l: seq<nat>, k: nat)
    requires Ring(s, head, tail, l) && k < |l| && |l| > 1
    ensures l[k] < |s| && 0 <= s[l[k]].next < |s| && 0 <= s[l[k]].prior < |s|
    ensures var m := Without(l, k);
            Ring(Unlinked(s, l[k]), m[0], m[|m| - 1], m)
  {
    hide Unlinked;
    UnlinkedNodes(s, head, tail, l, k);
    var m, r := Without(l, k), Unlinked(s, l[k]);
    forall j: nat | j < |m| ensures Linked(r, m, j) {
      var p := if j < k then j else j + 1;
      assert m[j] == l[p] && Linked(s, l, p);
    }
  }

  /** The four pointer writes of `bcm_object_add_list` on a non-empty list. */
  function Inserted(s: seq<Record>, head: nat, tail: nat, x: nat): (r: seq<Record>)
    requires head < |s| && tail < |s| && x < |s|
    ensures |r| == |s|
  {
    var s1 := s[tail := s[tail].(next := x)];
    var s2 := s1[head := s1[head].(prior := x)];
    s2[x := s2[x].(next := head, prior := tail)]
  }

  /** The list after `x` joins it at the tail or at the head. */
  function Joined(l: seq<nat>, x: nat, toTail: bool): seq<nat>
  {
    if toTail then l + [x] else [x] + l
  }

  lemma InsertRing(s: seq<Record>, head: int, tail: int, l: seq<nat>, x: nat, toTail: bool)
    requires Ring(s, head, tail, l) && l != [] && x < |s| && x !in l
    ensures 0 <= head < |s| && 0 <= tail < |s|
    ensures Ring(Inserted(s, head, tail, x), if toTail then head else x, if toTail then x else tail,
                 Joined(l, x, toTail))
  {
    var m, r := Joined(l, x, toTail), Inserted(s, head, tail, x);
    assert head == l[0] && tail == l[|l| - 1];
    forall j: nat | j < |m| ensures Linked(r, m, j) {
      var p := if toTail then j else j - 1;
      if 0 <= p < |l| { assert m[j] == l[p] && Linked(s, l, p); }
    }
  }

  // ----- facts for the operations -----

  lemma JoinTail(l: seq<nat>, x: nat)
    ensures Joined(l, x, true) == l + [x]
  {
  }

  lemma FirstGone(l: seq<nat>)
    requires l != []
    ensures Without(l, 0) == l[1..]
  {
  }

  lemma OneLess(l: seq<nat>, k: nat)
    requires k < |l|
    ensures |Without(l, k)| == |l| - 1
  {
  }

  lemma WithoutInRange(l: seq<nat>, k: nat, n: nat)
    requires k < |l| && forall j: nat :: j < |l| ==> l[j] < n
    ensures forall j: nat :: j < |Without(l, k)| ==> Without(l, k)[j] < n
  {
  }

  lemma RingFacts(s: seq<Record>, head: int, tail: int, l: seq<nat>)
    requires Ring(s, head, tail, l)
    ensures Distinct(l) && forall k: nat :: k < |l| ==> l[k] < |s|
    ensures if l == [] then head == NIL == tail else head == l[0] && tail == l[|l| - 1]
  {
  }

  lemma SplitApart(n: nat, a: seq<nat>, b: seq<nat>)
    requires Split(n, a, b)
    ensures forall i: nat :: i in b ==> i !in a
  {
  }

  lemma SplitPermuted(n: nat, a: seq<nat>, b: seq<nat>, k: nat)
    requires Split(n, a, b) && Distinct(a) && k < |a|
    ensures Split(n, Without(a, k) + [a[k]], b)
  {
    WithoutDistinct(a, k);
  }

  /** Moving a record from one list to the other keeps the split. */
  lemma MoveSplit(n: nat, a: seq<nat>, b: seq<nat>, k: nat)
    requires Split(n, a, b) && Distinct(b) && k < |b|
    ensures Split(n, a + [b[k]], Without(b, k)) && Split(n, Without(b, k), a + [b[k]])
    ensures b[k] !in a && b[k] !in Without(b, k)
    ensures forall i: nat :: i in Without(b, k) ==> i in b && i !in a + [b[k]]
    ensures forall i: nat :: i in a ==> i !in b
  {
    WithoutDistinct(b, k);
  }

  lemma SplitSwap(n: nat, a: seq<nat>, b: seq<nat>)
    requires Split(n, a, b)
    ensures Split(n, b, a)
  {
  }

  lemma SameObjs(s0: seq<Record>, s1: seq<Record>, l: seq<nat>)
    requires |s1| == |s0| && forall k: nat :: k < |l| ==> l[k] < |s0| && s1[l[k]].obj == s0[l[k]].obj
    ensures ObjsOn(s1, l) == ObjsOn(s0, l)
  {
  }

  lemma ObjsAppend(s: seq<Record>, l: seq<nat>, x: nat)
    requires x < |s| && forall k: nat :: k < |l| ==> l[k] < |s|
    ensures ObjsOn(s, l + [x]) == ObjsOn(s, l) + [s[x].obj]
  {
  }

  lemma ObjsWithout(s: seq<Record>, l: seq<nat>, k: nat)
    requires k < |l| && forall k: nat :: k < |l| ==> l[k] < |s|
    ensures ObjsOn(s, Without(l, k)) == Without(ObjsOn(s, l), k)
  {
  }

  /** 0, 1, ..., n - 1 */
  function Indices(n: nat): (l: seq<nat>)
    ensures |l| == n && forall k: nat :: k < n ==> l[k] == k
  {
    seq(n, k requires k >= 0 => k)
  }

  /** The loop of `bcm_object_trace_init`: all records form one circle in array order. */
  method LinkAll(objs: array<Record>)
    requires objs.Length > 0
    modifies objs
    ensures Ring(objs[..], 0, objs.Length - 1, Indices(objs.Length))
    ensures SamePayload(old(objs[..]), objs[..])
  {
    var n, i := objs.Length, 0;
    ghost var l := Indices(n);
    while i < n
      invariant 0 <= i <= n
      invariant forall k: nat :: k < i ==> objs[k].next == After(l, k) && objs[k].prior == Before(l, k)
      invariant SamePayload(old(objs[..]), objs[..])
    {
      var next := if i == n - 1 then 0 else i + 1;
      var prior := if i == 0 then n - 1 else i - 1;
      objs[i] := objs[i].(next := next, prior := prior);
      i := i + 1;
    }
  }

  class Tracer {
    const objs: array<Record>
    var freehead: int
    var freetail: int
    var objhead: int
    var objtail: int
    var count: int
    var sn: uint32

    /** The records on the two lists, in order from head to tail. */
    ghost var active: seq<nat>
    ghost var unused: seq<nat>

    ghost predicate Valid()
      reads this, objs
    {
      && Ring(objs[..], objhead, objtail, active)
      && Ring(objs[..], freehead, freetail, unused)
      && Split(objs.Length, active, unused)
      && count == |active|
    }

    /** The traced objects, in list order. */
    ghost function Traced(): (t: seq<nat>)
      requires Valid()
      reads this, objs
      ensures |t| == |active|
    {
      ObjsOn(objs[..], active)
    }

    /** `bcm_object_trace_init` on a zeroed array of `n` records. */
    constructor (n: nat)
      requires n > 0
      ensures Valid() && active == [] && unused == Indices(n) && objs.Length == n && sn == 0 && fresh(objs)
    {
      objs := new Record[n](_ => Record(0, 0, 0, 0, 0, 0));
      freehead, freetail, objhead, objtail := 0, n - 1, NIL, NIL;
      count, sn := 0, 0;
      active, unused := [], Indices(n);
      new;
      LinkAll(objs);
      forall i: nat | i < n ensures i in unused { assert unused[i] == i; }
    }

    /** `bcm_object_rm_list` for the `k`-th record of the list `l`. */
    method RmList(head: int, tail: int, x: nat, ghost l: seq<nat>, ghost k: nat) returns (h: int, t: int)
      requires Ring(objs[..], head, tail, l) && k < |l| && l[k] == x
      modifies objs
      ensures Ring(objs[..], h, t, Without(l, k))
      ensures OnlyOn(l, old(objs[..]), objs[..]) && SamePayload(old(objs[..]), objs[..])
    {
      ghost var s := objs[..];
      h, t := head, tail;
      UnlinkedNodes(s, head, tail, l, k);
      if |l| > 1 { UnlinkRing(s, head, tail, l, k); }
      assert Linked(s, l, k) && Linked(s, l, 0) && Linked(s, l, |l| - 1);
      if x == head && x == tail {
        h, t := NIL, NIL;
      } else if x == head {
        h := objs[h].next;
      } else if x == tail {
        t := objs[t].prior;
      }
      objs[objs[x].next] := objs[objs[x].next].(prior := objs[x].prior);
      objs[objs[x].prior] := objs[objs[x].prior].(next := objs[x].next);
      assert objs[..] == Unlinked(s, x);
    }

    /** `bcm_object_add_list` */
    method AddList(head: int, tail: int, x: nat, toTail: bool, ghost l: seq<nat>) returns (h: int, t: int)
      requires Ring(objs[..], head, tail, l) && x < objs.Length && x !in l
      modifies objs
      ensures Ring(objs[..], h, t, Joined(l, x, toTail))
      ensures OnlyOn(l + [x], old(objs[..]), objs[..]) && SamePayload(old(objs[..]), objs[..])
    {
      ghost var s := objs[..];
      h, t := head, tail;
      if head == NIL && tail == NIL {
        h, t := x, x;
        objs[x] := objs[x].(next := x, prior := x);
      } else {
        InsertRing(s, head, tail, l, x, toTail);
        objs[t] := objs[t].(next := x);
        objs[h] := objs[h].(prior := x);
        objs[x] := objs[x].(next := h, prior := t);
        assert objs[..] == Inserted(s, head, tail, x);
        if toTail {
          t := x;
        } else {
          h := x;
        }
      }
    }

    /** Whether a record is the one asked for. */
    predicate Matches(x: nat, obj: nat, chksn: bool, wanted: uint32)
      requires x < objs.Length
      reads objs
    {
      objs[x].obj == obj && (!chksn || objs[x].sn == wanted)
    }

    /** The backward walk over the active list: it ends after at most one lap, at the last match. */
    method FindActive(obj: nat, chksn: bool, wanted: uint32) returns (x: int, ghost k: nat)
      requires Valid()
      ensures x == NIL ==> forall j: nat :: j < |active| ==> !Matches(active[j], obj, chksn, wanted)
      ensures x != NIL ==> k < |active| && x == active[k] && Matches(active[k], obj, chksn, wanted)
      ensures x != NIL ==> forall j: nat :: k < j < |active| ==> !Matches(active[j], obj, chksn, wanted)
    {
      x, k := objtail, if |active| > 0 then |active| - 1 else 0;
      while x != NIL
        invariant x != NIL ==> k < |active| && x == active[k]
        invariant x == NIL ==> active == []
        invariant forall j: nat :: k < j < |active| ==> !Matches(active[j], obj, chksn, wanted)
        decreases if x == NIL then 0 else k + 1
      {
        if Matches(x, obj, chksn, wanted) {
          return;
        }
        assert Linked(objs[..], active, k);
        x := objs[x].prior;
        if x == objtail {
          assert k == 0;
          return NIL, k;
        }
        k := k - 1;
      }
    }

    /** The walk over the free list after a failed removal: has this object been freed before? It stops
        at the first record never used. */
    method FindFreed(obj: nat) returns (found: bool)
      requires Valid()
      ensures found <==> exists k: nat :: k < |unused| && objs[unused[k]].obj == obj &&
                           forall j: nat :: k <= j < |unused| ==> objs[unused[j]].obj != 0
    {
      var x := freetail;
      ghost var k := |unused|;
      while x != NIL && objs[x].obj != 0
        invariant x == NIL ==> unused == []
        invariant x != NIL ==> 0 < k <= |unused| && x == unused[k - 1]
        invariant forall j: nat :: k <= j < |unused| ==> objs[unused[j]].obj != 0 && objs[unused[j]].obj != obj
        decreases k
      {
        if objs[x].obj == obj {
          assert k - 1 < |unused| && objs[unused[k - 1]].obj == obj;
          return true;
        }
        assert Linked(objs[..], unused, k - 1);
        x := objs[x].prior;
        k := k - 1;
        if x == freetail {
          break;
        }
      }
      found := false;
    }

    /** `bcm_object_movetoend` on the active list, towards the tail. */
    method MoveToTail(x: nat, ghost k: nat)
      requires Valid() && k < |active| && active[k] == x
      modifies this`objhead, this`objtail, this`active, objs
      ensures Valid() && active == Without(old(active), k) + [x]
      ensures SamePayload(old(objs[..]), objs[..])
    {
      hide Ring, Linked, Split, OnlyOn, Joined;
      ghost var s, l := objs[..], active;
      ghost var m := Without(l, k);
      RingFacts(s, objhead, objtail, l);
      if x != objtail {
        objhead, objtail := RmList(objhead, objtail, x, l, k);
        WithoutDistinct(l, k);
        RingFrame(s, objs[..], freehead, freetail, unused, l) by { SplitApart(objs.Length, l, unused); }
        ghost var s1 := objs[..];
        objhead, objtail := AddList(objhead, objtail, x, true, m);
        JoinTail(m, x);
        active := m + [x];
        RingFrame(s1, objs[..], freehead, freetail, unused, m + [x]) by {
          SplitApart(objs.Length, l, unused);
        }
        SplitPermuted(objs.Length, l, unused, k);
      } else {
        assert m + [x] == active;
      }
    }

    /** What the searches find, in terms of the traced objects. */
    lemma FoundIs(obj: nat, x: int, k: nat)
      requires Valid()
      requires x == NIL ==> forall j: nat :: j < |active| ==> !Matches(active[j], obj, false, 0)
      requires x != NIL ==> k < |active| && x == active[k] && Matches(active[k], obj, false, 0)
      requires x != NIL ==> forall j: nat :: k < j < |active| ==> !Matches(active[j], obj, false, 0)
      ensures x == NIL <==> obj !in Traced()
      ensures x != NIL ==> k == LastIndex(Traced(), obj)
    {
      var t := Traced();
      if x != NIL { assert t[k] == obj; }
    }

    /** The payload an addition writes; a packet also takes the next serial number. */
    method Label(x: nat, obj: nat, isPkt: bool)
      requires x < objs.Length
      modifies this`sn, objs
      ensures forall i: nat :: i < objs.Length && i != x ==> objs[i] == old(objs[i])
      ensures objs[x].prior == old(objs[x].prior) && objs[x].next == old(objs[x].next)
      ensures objs[x].obj == obj && objs[x].flag == 0
      ensures isPkt ==> objs[x].sn == old(sn) && objs[x].state == 0 && sn == (old(sn) + 1) % 0x1_0000_0000
      ensures !isPkt ==> objs[x].sn == old(objs[x].sn) && sn == old(sn)
    {
      objs[x] := objs[x].(obj := obj, flag := 0);
      if isPkt {
        objs[x] := objs[x].(sn := sn, state := 0);
        sn := (sn + 1) % 0x1_0000_0000;
      }
    }

    /** The part of an addition after the search: the first free record moves to the active list. */
    method Claim(x: nat, obj: nat, isPkt: bool)
      requires Valid() && unused != [] && x == unused[0]
      modifies this, objs
      ensures Valid() && Traced() == old(Traced()) + [obj]
      ensures active == old(active) + [x] && unused == old(unused[1..])
      ensures x < objs.Length && objs[x].flag == 0
      ensures isPkt ==> objs[x].sn == old(sn) && objs[x].state == 0 && sn == (old(sn) + 1) % 0x1_0000_0000
      ensures !isPkt ==> sn == old(sn)
    {
      hide Ring, Linked, Split, OnlyOn, Without, ObjsOn, Joined;
      ghost var s, a, f := objs[..], active, unused;
      ghost var g := Without(f, 0);
      RingFacts(s, objhead, objtail, a);
      RingFacts(s, freehead, freetail, f);
      MoveSplit(objs.Length, a, f, 0);
      freehead, freetail := RmList(freehead, freetail, x, f, 0);
      ghost var s1 := objs[..];
      RingFrame(s, s1, objhead, objtail, a, f);
      Label(x, obj, isPkt);
      ghost var s2 := objs[..];
      Relabel(s1, s2, objhead, objtail, a);
      Relabel(s1, s2, freehead, freetail, g);
      objhead, objtail := AddList(objhead, objtail, x, true, a);
      assert Joined(a, x, true) == a + [x] by { JoinTail(a, x); }
      RingFrame(s2, objs[..], freehead, freetail, g, a + [x]);
      active, unused := a + [x], g;
      count := count + 1;
      assert g == f[1..] by { FirstGone(f); }
      SameObjs(s, objs[..], a);
      ObjsAppend(objs[..], a, x);
    }

    /** `bcm_object_trace_opr` with `BCM_OBJDBG_ADD` or `BCM_OBJDBG_ADD_PKT`. */
    method TraceAdd(obj: nat, isPkt: bool) returns (ok: bool)
      requires Valid()
      modifies this, objs
      ensures Valid() && Traced() == Step(old(Traced()), Add(obj), objs.Length)
      ensures ok <==> obj !in old(Traced()) && old(unused) != []
      ensures ok ==> active == old(active) + [old(unused[0])] && unused == old(unused[1..])
                     && Traced() == old(Traced()) + [obj]
      ensures ok ==> active[|active| - 1] < objs.Length && objs[active[|active| - 1]].flag == 0
      ensures ok && isPkt ==> objs[active[|active| - 1]].sn == old(sn) && objs[active[|active| - 1]].state == 0
                              && sn == (old(sn) + 1) % 0x1_0000_0000
      ensures !(ok && isPkt) ==> sn == old(sn)
      ensures !ok ==> active == old(active) && unused == old(unused) && objs[..] == old(objs[..])
    {
      hide Linked, ObjsOn, Distinct;
      var x, k := FindActive(obj, false, 0);
      FoundIs(obj, x, k);
      if x != NIL {
        return false;
      }
      x := freehead;
      if x == NIL {
        return false;
      }
      Claim(x, obj, isPkt);
      ok := true;
    }

    /** The part of a removal after the search: the record found moves to the free list. */
    method Surrender(x: nat, ghost k: nat)
      requires Valid() && k < |active| && active[k] == x
      modifies this, objs
      ensures Valid() && Traced() == Without(old(Traced()), k)
      ensures active == Without(old(active), k) && unused == old(unused) + [x]
    {
      hide Ring, Linked, Split, OnlyOn, Without, ObjsOn, Joined;
      ghost var s, a, f := objs[..], active, unused;
      ghost var g := Without(a, k);
      RingFacts(s, objhead, objtail, a);
      RingFacts(s, freehead, freetail, f);
      SplitSwap(objs.Length, a, f);
      MoveSplit(objs.Length, f, a, k);
      objhead, objtail := RmList(objhead, objtail, x, a, k);
      ghost var s1 := objs[..];
      RingFrame(s, s1, freehead, freetail, f, a);
      freehead, freetail := AddList(freehead, freetail, x, true, f);
      assert Joined(f, x, true) == f + [x] by { JoinTail(f, x); }
      RingFrame(s1, objs[..], objhead, objtail, g, f + [x]);
      active, unused := g, f + [x];
      count := count - 1;
      assert |g| == |a| - 1 by { JoinTail(a, x); OneLess(a, k); }
      RingFacts(objs[..], objhead, objtail, g);
      SameObjs(s, objs[..], g);
      ObjsWithout(s, a, k);
    }

    /** `bcm_object_trace_opr` with `BCM_OBJDBG_REMOVE`. */
    method TraceRemove(obj: nat) returns (ok: bool)
      requires Valid()
      modifies this, objs
      ensures Valid() && Traced() == Step(old(Traced()), Remove(obj), objs.Length)
      ensures ok <==> obj in old(Traced())
      ensures ok ==> exists k: nat ::
                && k < |old(active)| && old(Traced())[k] == obj
                && (forall j: nat :: k < j < |old(active)| ==> old(Traced())[j] != obj)
                && active == Without(old(active), k) && unused == old(unused) + [old(active)[k]]
                && Traced() == Without(old(Traced()), k)
      ensures !ok ==> active == old(active) && unused == old(unused) && objs[..] == old(objs[..])
    {
      hide Ring, Linked, Split, ObjsOn;
      var x, k := FindActive(obj, false, 0);
      FoundIs(obj, x, k);
      if x == NIL {
        var freed := FindFreed(obj);
        return false;
      }
      Surrender(x, k);
      ok := true;
    }

    /** `bcm_object_trace_upd`: the last record of the object carries the new one and moves to the tail. */
    method TraceUpd(obj: nat, objNew: nat)
      requires Valid()
      modifies this`objhead, this`objtail, this`active, objs
      ensures Valid() && Traced() == Step(old(Traced()), Update(obj, objNew), objs.Length)
      ensures obj !in old(Traced()) ==> active == old(active) && objs[..] == old(objs[..])
      ensures obj in old(Traced()) ==>
                var k := LastIndex(old(Traced()), obj);
                && k < |old(active)| && active == Without(old(active), k) + [old(active)[k]]
                && old(active)[k] < objs.Length && Renamed(old(objs[..]), objs[..], old(active)[k], objNew)
    {
      hide Ring, Linked, Split, Without, ObjsOn, Distinct;
      var x, k := FindActive(obj, false, 0);
      FoundIs(obj, x, k);
      ghost var s, a := objs[..], active;
      if x == NIL {
        return;
      }
      RingFacts(s, objhead, objtail, a);
      objs[x] := objs[x].(obj := objNew);
      ghost var s1 := objs[..];
      Relabel(s, s1, objhead, objtail, a);
      Relabel(s, s1, freehead, freetail, unused);
      MoveToTail(x, k);
      WithoutDistinct(a, k);
      WithoutInRange(a, k, |s|);
      SameObjs(s, objs[..], Without(a, k));
      ObjsWithout(s, a, k);
      ObjsAppend(objs[..], Without(a, k), x);
    }

    /** `bcm_object_trace_chk`: the record found moves to the tail. */
    method TraceChk(obj: nat, chksn: bool, wanted: uint32) returns (found: bool, ghost k: nat)
      requires Valid()
      modifies this`objhead, this`objtail, this`active, objs
      ensures Valid() && SamePayload(old(objs[..]), objs[..])
      ensures found ==> k < |old(active)| && old(objs[active[k]].obj) == obj
                        && (chksn ==> old(objs[active[k]].sn) == wanted)
                        && Traced() == Step(old(Traced()), Touch(k), objs.Length)
                        && active == Without(old(active), k) + [old(active)[k]]
                        && forall j: nat :: k < j < |old(active)| && old(objs[active[j]].obj) == obj ==>
                             chksn && old(objs[active[j]].sn) != wanted
      ensures !found ==> active == old(active) && objs[..] == old(objs[..])
                         && forall j: nat :: j < |active| && objs[active[j]].obj == obj ==>
                              chksn && objs[active[j]].sn != wanted
    {
      var x;
      x, k := FindActive(obj, chksn, wanted);
      ghost var s, a := objs[..], active;
      found := x != NIL;
      if found {
        RingFacts(s, objhead, objtail, a);
        MoveToTail(x, k);
        WithoutInRange(a, k, |s|);
        SameObjs(s, objs[..], Without(a, k));
        ObjsWithout(s, a, k);
        ObjsAppend(objs[..], Without(a, k), x);
      }
    }
  }

  /** The two lists share no record and together hold all `n` of them. */
  ghost predicate Split(n: nat, a: seq<nat>, b: seq<nat>)
  {
    && |a| + |b| == n
    && (forall i: nat :: i in a ==> i !in b)
    && (forall i: nat :: i < n ==> i in a || i in b)
  }

  // ----- what the operations do to the traced objects -----

  /** `Touch` stands for every operation that finds a record and moves it to the tail. */
  datatype Op = Add(obj: nat) | Remove(obj: nat) | Update(obj: nat, objNew: nat) | Touch(k: nat)

  function LastIndex(t: seq<nat>, o: nat): (k: nat)
    requires o in t
    ensures k < |t| && t[k] == o && forall j :: k < j < |t| ==> t[j] != o
  {
    if t[|t| - 1] == o then |t| - 1 else LastIndex(t[..|t| - 1], o)
  }

  /** One operation on the objects traced, with `n` records in all. */
  function Step(t: seq<nat>, op: Op, n: nat): seq<nat>
  {
    match op
    case Add(o) => if o in t || |t| == n then t else t + [o]
    case Remove(o) => if o in t then Without(t, LastIndex(t, o)) else t
    case Update(o, p) => if o in t then Without(t, LastIndex(t, o)) + [p] else t
    case Touch(k) => if k < |t| then Without(t, k) + [t[k]] else t
  }

  function Run(t: seq<nat>, ops: seq<Op>, n: nat): seq<nat>
  {
    if ops == [] then t else Step(Run(t, ops[..|ops| - 1], n), ops[|ops| - 1], n)
  }

  lemma WithoutDistinct(t: seq<nat>, k: nat)
    requires Distinct(t) && k < |t|
    ensures Distinct(Without(t, k)) && t[k] !in Without(t, k)
    ensures forall o: nat :: o in Without(t, k) <==> o in t && o != t[k]
  {
    var w := Without(t, k);
    forall o: nat ensures o in w <==> o in t && o != t[k] {
      if o in w {
        var j :| 0 <= j < |w| && w[j] == o;
        assert o == t[if j < k then j else j + 1];
      }
      if o in t && o != t[k] {
        var j :| 0 <= j < |t| && t[j] == o;
        assert o == w[if j < k then j else j - 1];
      }
    }
  }

  /** The traced objects other than `o`, in order. */
  function Others(t: seq<nat>, o: nat): (r: seq<nat>)
    ensures forall p: nat :: p in r <==> p in t && p != o
  {
    if t == [] then []
    else
      var r := Others(t[..|t| - 1], o);
      if t[|t| - 1] == o then r else r + [t[|t| - 1]]
  }

  lemma {:induction false} OthersOfWithout(t: seq<nat>, k: nat)
    requires k < |t|
    ensures Others(Without(t, k), t[k]) == Others(t, t[k])
  {
    var m := |t| - 1;
    if k == m {
      assert Without(t, k) == t[..m];
    } else {
      assert Without(t, k)[..m - 1] == Without(t[..m], k) && Without(t, k)[m - 1] == t[m];
      OthersOfWithout(t[..m], k);
    }
  }

  lemma {:induction false} OthersKeepsAll(t: seq<nat>, o: nat)
    requires o !in t
    ensures Others(t, o) == t
  {
    if t == [] {
    } else {
      assert t[|t| - 1] in t && forall p :: p in t[..|t| - 1] ==> p in t;
      OthersKeepsAll(t[..|t| - 1], o);
      assert t == t[..|t| - 1] + [t[|t| - 1]];
    }
  }

  /** What the operations do to a list of distinct objects: a removal takes out exactly the object, and an
      update or a search takes it out and puts the new or the same one at the end; all others stay, in order. */
  lemma StepMoves(t: seq<nat>, op: Op, n: nat)
    requires Distinct(t)
    ensures op.Add? ==> Step(t, op, n) == if op.obj !in t && |t| != n then t + [op.obj] else t
    ensures op.Remove? ==> Step(t, op, n) == Others(t, op.obj) && op.obj !in Step(t, op, n)
    ensures op.Update? ==> Step(t, op, n) == if op.obj in t then Others(t, op.obj) + [op.objNew] else t
    ensures op.Touch? && op.k < |t| ==> Step(t, op, n) == Others(t, t[op.k]) + [t[op.k]]
  {
    hide Distinct, Others, LastIndex;
    match op
    case Add(o) =>
    case Remove(o) => if o in t { TakenOut(t, LastIndex(t, o)); } else { OthersKeepsAll(t, o); }
    case Update(o, p) => if o in t { TakenOut(t, LastIndex(t, o)); }
    case Touch(k) => if k < |t| { TakenOut(t, k); }
  }

  lemma TakenOut(t: seq<nat>, k: nat)
    requires Distinct(t) && k < |t|
    ensures Without(t, k) == Others(t, t[k])
  {
    hide Others, Without;
    WithoutDistinct(t, k);
    OthersOfWithout(t, k);
    OthersKeepsAll(Without(t, k), t[k]);
  }

  /** A removal from any list takes out one occurrence, the last, and keeps all others in order. */
  lemma RemoveTakesLast(t: seq<nat>, o: nat, n: nat)
    ensures Others(Step(t, Remove(o), n), o) == Others(t, o)
    ensures |Step(t, Remove(o), n)| == if o in t then |t| - 1 else |t|
  {
    if o in t { OthersOfWithout(t, LastIndex(t, o)); }
  }

  /** An update keeps the traced objects distinct exactly when the new object is not already traced
      under another record. */
  lemma UpdateDistinct(t: seq<nat>, o: nat, p: nat, n: nat)
    requires Distinct(t)
    ensures Distinct(Step(t, Update(o, p), n)) <==> (o !in t || p == o || p !in t)
  {
    if o in t {
      var k := LastIndex(t, o);
      WithoutDistinct(t, k);
      var w := Without(t, k);
      if p in w {
        var j :| 0 <= j < |w| && w[j] == p;
        assert (w + [p])[j] == (w + [p])[|w|];
      }
    }
  }

  /** Every other operation keeps them distinct. */
  lemma StepDistinct(t: seq<nat>, op: Op, n: nat)
    requires Distinct(t) && !op.Update?
    ensures Distinct(Step(t, op, n))
  {
    match op
    case Add(o) =>
    case Remove(o) => if o in t { WithoutDistinct(t, LastIndex(t, o)); }
    case Touch(k) => if k < |t| { WithoutDistinct(t, k); }
  }

  /** Whether the next operation leaves distinct objects distinct: it is not an update to an object already
      traced under another record. */
  predicate Harmless(t: seq<nat>, op: Op)
  {
    op.Update? ==> op.obj !in t || op.objNew == op.obj || op.objNew !in t
  }

  /** The traced objects after the first `i` operations of a run from the empty tracer. */
  function TracedAt(ops: seq<Op>, n: nat, i: nat): seq<nat>
    requires i <= |ops|
  {
    Run([], ops[..i], n)
  }

  lemma TracedNext(ops: seq<Op>, n: nat, i: nat)
    requires i < |ops|
    ensures TracedAt(ops, n, i + 1) == Step(TracedAt(ops, n, i), ops[i], n)
  {
    hide Step;
    assert ops[..i + 1][..i] == ops[..i];
  }

  /** Up to any point of a run the objects are always distinct exactly when every update so far was harmless
      where it was made. */
  lemma {:induction false} RunDistinctExactly(ops: seq<Op>, n: nat, m: nat)
    requires m <= |ops|
    ensures (forall i: nat :: i <= m ==> Distinct(TracedAt(ops, n, i))) <==>
            (forall i: nat :: i < m ==> Harmless(TracedAt(ops, n, i), ops[i]))
  {
    hide Distinct, Step, Harmless, TracedAt;
    if m == 0 {
      EmptyDistinct(ops, n);
    } else {
      RunDistinctExactly(ops, n, m - 1);
      TracedNext(ops, n, m - 1);
      if Distinct(TracedAt(ops, n, m - 1)) { StepDistinctExactly(TracedAt(ops, n, m - 1), ops[m - 1], n); }
    }
  }

  lemma EmptyDistinct(ops: seq<Op>, n: nat)
    ensures Distinct(TracedAt(ops, n, 0))
  {
  }

  lemma StepDistinctExactly(t: seq<nat>, op: Op, n: nat)
    requires Distinct(t)
    ensures Distinct(Step(t, op, n)) <==> Harmless(t, op)
  {
    hide Distinct, Step;
    if op.Update? {
      UpdateDistinct(t, op.obj, op.objNew, n);
    } else {
      StepDistinct(t, op, n);
    }
  }

  /** Two additions and an update make one object active twice. */
  lemma DuplicateReached(n: nat)
    requires n >= 2
    ensures var t := Run([], [Add(1), Add(2), Update(1, 2)], n); t == [2, 2] && !Distinct(t)
  {
    hide Step, Distinct;
    var one, two, three := [Add(1)], [Add(1), Add(2)], [Add(1), Add(2), Update(1, 2)];
    assert one[..0] == [] && two[..1] == one && three[..2] == two;
    TwoAdded(n);
    TwoAreNotDistinct();
    assert Run([], one, n) == Step([], Add(1), n);
    assert Run([], two, n) == Step([1], Add(2), n);
    assert Run([], three, n) == Step([1, 2], Update(1, 2), n);
  }

  lemma TwoAdded(n: nat)
    requires n >= 2
    ensures Step([], Add(1), n) == [1] && Step([1], Add(2), n) == [1, 2] && Step([1, 2], Update(1, 2), n) == [2, 2]
  {
    assert [1, 2][..1] == [1];
  }

  lemma TwoAreNotDistinct()
    ensures !Distinct([2, 2])
  {
    var l: seq<nat> := [2, 2];
    assert l[0] == l[1];
  }

  /** Without updates no run, from the empty tracer on, traces an object twice, and it never holds
      more objects than records. */
  lemma {:induction false} RunDistinct(ops: seq<Op>, n: nat)
    requires forall i :: 0 <= i < |ops| ==> !ops[i].Update?
    ensures Distinct(Run([], ops, n)) && |Run([], ops, n)| <= n
  {
    if ops == [] {
    } else {
      var before := ops[..|ops| - 1];
      assert forall i :: 0 <= i < |before| ==> before[i] == ops[i];
      RunDistinct(before, n);
      StepDistinct(Run([], before, n), ops[|ops| - 1], n);
    }
  }
}
