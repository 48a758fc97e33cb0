/** Searching an 802.11 element list (id, length, value; section 9.4.2.1 of IEEE 802.11-2016):
    `bcm_parse_tlvs`, the buffer-advance routines and `bcm_find_ie` (src/bcmutils.c). A pointer into
    the buffer is an offset. */
module TlvSearch {
  import opened Bits
  import opened Wrappers

  const HDR: nat := 2
  const MNG_ID_EXT_ID: byte := 255

  /** A parse position and the bytes left from it; `Null` is the cleared buffer. */
  datatype Cursor = Null | At(off: nat, len: nat)

  predicate InBuffer(buf: seq<byte>, c: Cursor) { c.At? ==> c.off + c.len == |buf| }

  // ----- the list of elements, independent of any search -----

  /** An element starts at `o` and fits (`bcm_valid_tlv`). */
  predicate Fits(buf: seq<byte>, o: nat)
  {
    o + HDR <= |buf| && o + HDR + buf[o + 1] <= |buf|
  }

  /** Offset just past the element at `o`. */
  function End(buf: seq<byte>, o: nat): (e: nat)
    requires Fits(buf, o)
    ensures o < e <= |buf|
  {
    var n: nat := buf[o + 1];
    o + HDR + n
  }

  /** The elements met by a plain left-to-right walk that stops at the first one that does not fit. */
  function Elements(buf: seq<byte>, o: nat): (es: set<nat>)
    ensures forall e :: e in es ==> Fits(buf, e) && o <= e
    decreases |buf| - o
  {
    if !Fits(buf, o) then {} else {o} + Elements(buf, End(buf, o))
  }

  /** The walk started at one of its own elements meets the rest of them. */
  lemma {:induction false} WalkFrom(buf: seq<byte>, a: nat, o: nat)
    requires o in Elements(buf, a)
    ensures forall e: nat :: e in Elements(buf, o) <==> e in Elements(buf, a) && e >= o
    decreases |buf| - a
  {
    if o == a {
    } else {
      WalkFrom(buf, End(buf, a), o);
    }
  }

  // ----- lists written element by element -----

  datatype Elt = Elt(id: byte, data: seq<byte>)

  predicate Short(es: seq<Elt>) { forall i :: 0 <= i < |es| ==> |es[i].data| < 256 }

  function One(e: Elt): seq<byte>
    requires |e.data| < 256
  {
    [e.id, |e.data|] + e.data
  }

  /** Identifier, length and data of every element, one after the other. */
  function Encoded(es: seq<Elt>): seq<byte>
    requires Short(es)
  {
    if es == [] then [] else One(es[0]) + Encoded(es[1..])
  }

  lemma {:induction false} EncodedSplit(es: seq<Elt>, k: nat)
    requires k <= |es| && Short(es)
    ensures Encoded(es) == Encoded(es[..k]) + Encoded(es[k..])
  {
    hide One;
    if k == 0 {
      assert es[0..] == es && Encoded(es[..0]) == [];
    } else {
      EncodedSplit(es[1..], k - 1);
      assert es[..k][1..] == es[1..][..k - 1] && es[1..][k - 1..] == es[k..];
      Regroup(One(es[0]), Encoded(es[1..][..k - 1]), Encoded(es[k..]));
    }
  }

  lemma Regroup(a: seq<byte>, b: seq<byte>, c: seq<byte>)
    ensures a + (b + c) == (a + b) + c
  {
  }

  /** Where element `k` stands, whatever follows the list. */
  lemma EncodedAt(es: seq<Elt>, k: nat, tail: seq<byte>)
    requires k < |es| && Short(es)
    ensures var b, o, n := Encoded(es) + tail, |Encoded(es[..k])|, |es[k].data|;
            && Fits(b, o) && End(b, o) == o + 2 + n == |Encoded(es[..k + 1])|
            && b[o] == es[k].id && b[o + 1] == n && b[o + 2..o + 2 + n] == es[k].data
  {
    hide Fits, End, Encoded, One;
    var head, last := Encoded(es[..k]), Encoded(es[k + 1..]);
    EncodedFirst(es, k);
    EncodedNext(es, k);
    EncodedSplit(es, k);
    Regroup(head, One(es[k]), last);
    Regroup(head + One(es[k]), last, tail);
    OneAt(head, es[k], last + tail);
  }

  lemma EncodedFirst(es: seq<Elt>, k: nat)
    requires k < |es| && Short(es)
    ensures Encoded(es[k..]) == One(es[k]) + Encoded(es[k + 1..])
  {
    hide One;
    assert es[k..][0] == es[k] && es[k..][1..] == es[k + 1..];
  }

  lemma EncodedNext(es: seq<Elt>, k: nat)
    requires k < |es| && Short(es)
    ensures Encoded(es[..k + 1]) == Encoded(es[..k]) + One(es[k])
  {
    hide One;
    var t := es[..k + 1];
    EncodedSplit(t, k);
    EncodedFirst(t, k);
    assert t[..k] == es[..k] && t[k + 1..] == [];
  }

  lemma OneAt(head: seq<byte>, e: Elt, rest: seq<byte>)
    requires |e.data| < 256
    ensures var b, o, n := head + One(e) + rest, |head|, |e.data|;
            && Fits(b, o) && End(b, o) == o + 2 + n && |One(e)| == 2 + n
            && b[o] == e.id && b[o + 1] == n && b[o + 2..o + 2 + n] == e.data
  {
    var b, o, n := head + One(e) + rest, |head|, |e.data|;
    assert b[o] == One(e)[0] && b[o + 1] == One(e)[1];
    assert b[o + 2..o + 2 + n] == One(e)[2..];
  }

  /** After an element of the walk the walk goes on at its end, if an element fits there. */
  lemma {:induction false} WalkGoesOn(buf: seq<byte>, a: nat, o: nat)
    requires o in Elements(buf, a) && Fits(buf, End(buf, o))
    ensures End(buf, o) in Elements(buf, a)
    decreases |buf| - a
  {
    if o == a {
    } else {
      WalkGoesOn(buf, End(buf, a), o);
    }
  }

  /** The walk over a list written element by element meets every one of them. */
  lemma {:induction false} WalkMeetsAll(es: seq<Elt>, k: nat, tail: seq<byte>)
    requires k < |es| && Short(es)
    ensures |Encoded(es[..k])| in Elements(Encoded(es) + tail, 0)
  {
    hide Fits, Encoded;
    EncodedAt(es, k, tail);
    if k == 0 {
      NoBytes(es[..0]);
    } else {
      EncodedAt(es, k - 1, tail);
      WalkMeetsAll(es, k - 1, tail);
      WalkGoesOn(Encoded(es) + tail, 0, |Encoded(es[..k - 1])|);
    }
  }

  lemma NoBytes(es: seq<Elt>)
    requires es == []
    ensures Encoded(es) == []
  {
  }

  /** An answer is right if it is the least element of the walk that passes the test, or `None` when no
      element passes. */
  ghost predicate IsFirst(es: set<nat>, good: set<nat>, r: Option<nat>)
  {
    match r
    case None => forall e :: e in es ==> e !in good
    case Some(o) => o in es && o in good && forall e :: e in es && e < o ==> e !in good
  }

  /** The identifier test of `bcm_parse_tlvs`: extended elements answer to 255 plus their first byte. */
  predicate HasKey(buf: seq<byte>, o: nat, key: nat)
  {
    Fits(buf, o) &&
    (buf[o] == key || (buf[o] == MNG_ID_EXT_ID && buf[o + 1] > 0 && buf[o + HDR] as int + 255 == key))
  }

  /** The element wanted by `bcm_find_ie`: its tag, its OUI and the type byte after the OUI. */
  predicate Wanted(buf: seq<byte>, o: nat, tag: byte, oui: seq<byte>, typ: byte)
  {
    Fits(buf, o) && buf[o] == tag && buf[o + 1] > |oui| && o + HDR + |oui| < |buf| &&
    buf[o + HDR..o + HDR + |oui|] == oui && buf[o + HDR + |oui|] == typ
  }

  ghost function Keyed(buf: seq<byte>, key: nat): set<nat>
  {
    set o: nat | o < |buf| && HasKey(buf, o, key)
  }

  ghost function AllWanted(buf: seq<byte>, tag: byte, oui: seq<byte>, typ: byte): set<nat>
  {
    set o: nat | o < |buf| && Wanted(buf, o, tag, oui, typ)
  }

  // ----- the routines -----

  method ParseTlvs(buf: seq<byte>, c: Cursor, key: nat) returns (r: Option<nat>)
    requires InBuffer(buf, c)
    ensures c.Null? ==> r == None
    ensures c.At? ==> IsFirst(Elements(buf, c.off), Keyed(buf, key), r)
  {
    if c.Null? {
      return None;
    }
    var elt, totlen := c.off, c.len;
    while totlen >= HDR
      invariant elt + totlen == |buf|
      invariant forall e: nat :: e in Elements(buf, elt) ==> e in Elements(buf, c.off)
      invariant forall e: nat :: e in Elements(buf, c.off) && e !in Elements(buf, elt) ==> e !in Keyed(buf, key)
      decreases totlen
    {
      var len: nat := buf[elt + 1];
      if totlen < len + HDR {
        return None;
      }
      assert elt in Elements(buf, elt);
      if buf[elt] == key || (buf[elt] == MNG_ID_EXT_ID && len > 0 && buf[elt + HDR] as int + 255 == key) {
        WalkFrom(buf, c.off, elt);
        return Some(elt);
      }
      elt := elt + len + HDR;
      totlen := totlen - (len + HDR);
    }
    r := None;
  }

  /** `bcm_tlv_buffer_advance_to` */
  method AdvanceTo(buf: seq<byte>, elt: nat, c: Cursor) returns (n: Cursor)
    requires InBuffer(buf, c)
    ensures n == if c.At? && c.off <= elt && Fits(buf, elt) then At(elt, |buf| - elt) else Null
  {
    if c.At? && c.off < c.off + c.len && c.off <= elt < c.off + c.len {
      var left := c.len - (elt - c.off);
      if left >= HDR {
        var len: nat := buf[elt + 1];
        if left >= HDR + len {
          return At(elt, left);
        }
      }
    }
    n := Null;
  }

  /** `bcm_tlv_buffer_advance_past` */
  method AdvancePast(buf: seq<byte>, elt: nat, c: Cursor) returns (n: Cursor)
    requires InBuffer(buf, c)
    ensures n == if c.At? && c.off <= elt && Fits(buf, elt) && Fits(buf, End(buf, elt))
                 then At(End(buf, elt), |buf| - End(buf, elt)) else Null
  {
    n := AdvanceTo(buf, elt, c);
    if n.Null? {
      return;
    }
    var len: nat := buf[elt + 1];
    n := AdvanceTo(buf, elt + HDR + len, n);
  }

  /** The search has reached `rest`: what the walk from there meets is the rest of the whole walk, and
      nothing before it was wanted. */
  ghost predicate Searched(buf: seq<byte>, rest: nat, good: set<nat>)
  {
    && (forall e: nat :: e in Elements(buf, rest) <==> e in Elements(buf, 0) && e >= rest)
    && (forall e: nat :: e in Elements(buf, 0) && e < rest ==> e !in good)
  }

  lemma SearchOn(buf: seq<byte>, rest: nat, good: set<nat>, o: nat)
    requires Searched(buf, rest, good) && o in Elements(buf, rest) && o !in good
    requires forall e :: e in Elements(buf, rest) && e < o ==> e !in good
    ensures Fits(buf, o) && Searched(buf, End(buf, o), good)
  {
    WalkFrom(buf, rest, o);
  }

  lemma SearchOver(buf: seq<byte>, rest: nat, good: set<nat>)
    requires Searched(buf, rest, good)
    ensures (forall e :: e in Elements(buf, rest) ==> e !in good) ==> IsFirst(Elements(buf, 0), good, None)
    ensures forall o :: IsFirst(Elements(buf, rest), good, Some(o)) ==> IsFirst(Elements(buf, 0), good, Some(o))
  {
  }

  /** `bcm_find_ie`: repeated parse, advance to the match, test, advance past it. */
  method FindIe(buf: seq<byte>, tag: byte, oui: seq<byte>, typ: byte) returns (r: Option<nat>)
    ensures IsFirst(Elements(buf, 0), AllWanted(buf, tag, oui, typ), r)
  {
    hide Elements, Searched;
    var c := At(0, |buf|);
    ghost var rest: nat, good := 0, AllWanted(buf, tag, oui, typ);
    assert Searched(buf, 0, good) by { SearchStart(buf, good); }
    while true
      invariant InBuffer(buf, c) && Searched(buf, rest, good)
      invariant if c.At? then c.off == rest else !Fits(buf, rest)
      decreases if c.Null? then 0 else c.len + 1
    {
      SearchOver(buf, rest, good);
      WalkEnds(buf, rest);
      var ie := ParseTlvs(buf, c, tag);
      if ie == None {
        return None;
      }
      var o := ie.value;
      c := AdvanceTo(buf, o, c);
      var len: nat := buf[o + 1];
      if len > |oui| && buf[o + HDR..o + HDR + |oui|] == oui && buf[o + HDR + |oui|] == typ {
        assert buf[o] == tag;
        return Some(o);
      }
      SearchOn(buf, rest, good, o);
      c := AdvancePast(buf, o, c);
      rest := End(buf, o);
    }
  }

  lemma SearchStart(buf: seq<byte>, good: set<nat>)
    ensures Searched(buf, 0, good)
  {
  }

  lemma WalkEnds(buf: seq<byte>, o: nat)
    ensures !Fits(buf, o) ==> Elements(buf, o) == {}
  {
  }
}
