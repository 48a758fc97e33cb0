/** The extended type-length-value codec of src/bcmxtlv.c: packing descriptors into a buffer and
    unpacking a buffer into descriptors. */
module Xtlv {
  import opened Bits
  import opened Wrappers

  datatype Status = Ok | BadArg | BadLen | BufTooShort

  /** The option bits of `bcm_xtlv_opts_t`. */
  datatype Opts = Opts(align32: bool, idU8: bool, lenU8: bool, idBE: bool, lenBE: bool)

  /** An `xtlv_desc_t` for packing: `ptr` is the memory it points to, if any. */
  datatype Desc = Desc(typ: uint16, len: uint16, ptr: Option<seq<byte>>)

  // ----- sizes and header readers -----

  function HdrSize(o: Opts): (n: nat)
    ensures 2 <= n <= 4
  {
    4 - (if o.lenU8 then 1 else 0) - (if o.idU8 then 1 else 0)
  }

  /** `bcm_xtlv_size_for_data`, with `ALIGN_SIZE(x, 4)` written as arithmetic. */
  function SizeForData(dlen: nat, o: Opts): (n: nat)
    ensures dlen + HdrSize(o) <= n < dlen + HdrSize(o) + 4
    ensures if o.align32 then n % 4 == 0 else n == dlen + HdrSize(o)
  {
    var x := dlen + HdrSize(o);
    if o.align32 then (x + 3) / 4 * 4 else x
  }

  function Le16(a: byte, b: byte): (r: uint16) { (a as int) + 256 * (b as int) }

  /** `bcm_xtlv_id` */
  function Id(b: seq<byte>, o: Opts): (r: nat)
    requires |b| >= HdrSize(o)
  {
    if o.idU8 then b[0] else if o.idBE then Le16(b[1], b[0]) else Le16(b[0], b[1])
  }

  /** `bcm_xtlv_len`; `past` is the byte in memory after `b`. The big-endian branch reads at the nominal
      offset 2 even behind an 8-bit identifier, where its second byte lies past the header. */
  function Len(b: seq<byte>, o: Opts, past: byte): (r: uint16)
    requires |b| >= HdrSize(o)
  {
    var p := if o.idU8 then 1 else 2;
    if o.lenU8 then b[p]
    else if o.lenBE then Le16(if |b| > 3 then b[3] else past, b[2])
    else Le16(b[p], b[p + 1])
  }

  /** `bcm_valid_xtlv` for the bytes left. */
  predicate ValidElt(b: seq<byte>, o: Opts, past: byte)
  {
    |b| >= HdrSize(o) && |b| >= SizeForData(Len(b, o, past), o)
  }

  // ----- packing -----

  /** The bytes of one element: identifier and length, low byte first, then the data. */
  function Header(typ: uint16, len: uint16, o: Opts): (h: seq<byte>)
    ensures |h| == HdrSize(o)
  {
    (if o.idU8 then [typ % 256] else [typ % 256, typ / 256]) +
    (if o.lenU8 then [len % 256] else [len % 256, len / 256])
  }

  predicate WellFormed(d: Desc) { d.ptr.Some? ==> |d.ptr.value| >= d.len }

  /** A descriptor the packer does not skip. */
  predicate Active(d: Desc) { d.len != 0 && d.ptr.Some? }

  function Payload(d: Desc): (p: seq<byte>)
    requires WellFormed(d) && Active(d)
    ensures |p| == d.len
  {
    d.ptr.value[..d.len]
  }

  function Element(d: Desc, o: Opts): (e: seq<byte>)
    requires WellFormed(d) && Active(d)
    ensures |e| == HdrSize(o) + d.len
  {
    Header(d.typ, d.len, o) + Payload(d)
  }

  predicate AllWellFormed(items: seq<Desc>) { forall i :: 0 <= i < |items| ==> WellFormed(items[i]) }

  /** Space the packer needs, padding included. */
  function Total(items: seq<Desc>, o: Opts): nat
  {
    if items == [] then 0
    else (if Active(items[0]) then SizeForData(items[0].len, o) else 0) + Total(items[1..], o)
  }

  /** `b` is what packing `items` produces: their elements in order, each followed by its padding,
      whose bytes are arbitrary. */
  predicate Packed(b: seq<byte>, items: seq<Desc>, o: Opts)
    requires AllWellFormed(items)
  {
    if items == [] then b == []
    else if !Active(items[0]) then Packed(b, items[1..], o)
    else
      var e, n := Element(items[0], o), SizeForData(items[0].len, o);
      |b| >= n && b[..|e|] == e && Packed(b[n..], items[1..], o)
  }

  /** The elements of the active descriptors, one after the other. */
  function Elements(items: seq<Desc>, o: Opts): seq<byte>
    requires AllWellFormed(items)
  {
    if items == [] then []
    else (if Active(items[0]) then Element(items[0], o) else []) + Elements(items[1..], o)
  }

  /** Without alignment the packed bytes are exactly those. */
  lemma {:induction false} PackedIsElements(b: seq<byte>, items: seq<Desc>, o: Opts)
    requires AllWellFormed(items) && Packed(b, items, o) && !o.align32
    ensures b == Elements(items, o)
  {
    hide Element;
    if items == [] {
    } else if Active(items[0]) {
      var n := |Element(items[0], o)|;
      PackedIsElements(b[n..], items[1..], o);
      assert b == b[..n] + b[n..];
    } else {
      PackedIsElements(b, items[1..], o);
    }
  }

  /** With alignment any number of elements fill whole 4-byte words, so each starts on one. */
  lemma {:induction false} TotalAligned(items: seq<Desc>, o: Opts)
    requires o.align32
    ensures Total(items, o) % 4 == 0
  {
    hide SizeForData;
    if items == [] {
    } else {
      TotalAligned(items[1..], o);
    }
  }

  /** The header part of `bcm_xtlv_pack_xtlv`, one branch per mix of short fields. */
  method PutHeader(buf: array<byte>, off: nat, typ: uint16, len: uint16, o: Opts) returns (p: nat)
    requires off + HdrSize(o) <= buf.Length
    modifies buf
    ensures p == off + HdrSize(o) && buf[off..p] == Header(typ, len, o)
    ensures forall i :: 0 <= i < buf.Length && !(off <= i < p) ==> buf[i] == old(buf[i])
  {
    if !o.idU8 && !o.lenU8 {
      buf[off], buf[off + 1] := typ % 256, typ / 256;
      buf[off + 2], buf[off + 3] := len % 256, len / 256;
      p := off + 4;
    } else if o.idU8 && o.lenU8 {
      buf[off] := typ % 256;
      buf[off + 1] := len % 256;
      p := off + 2;
    } else if o.idU8 {
      buf[off] := typ % 256;
      buf[off + 1], buf[off + 2] := len % 256, len / 256;
      p := off + 3;
    } else {
      buf[off], buf[off + 1] := typ % 256, typ / 256;
      buf[off + 2] := len % 256;
      p := off + 3;
    }
  }

  /** `memcpy` into the buffer. */
  method CopyIn(buf: array<byte>, p: nat, data: seq<byte>)
    requires p + |data| <= buf.Length
    modifies buf
    ensures buf[p..p + |data|] == data
    ensures forall i :: 0 <= i < buf.Length && !(p <= i < p + |data|) ==> buf[i] == old(buf[i])
  {
    forall i | 0 <= i < |data| {
      buf[p + i] := data[i];
    }
  }

  /** What the packer asserts of its caller: a length that fits an 8-bit field. */
  predicate LenFits(len: uint16, o: Opts) { o.lenU8 ==> len < 256 }

  /** `bcm_xtlv_pack_xtlv` at offset `off` of the buffer; without data only the header is written. */
  method PackXtlv(buf: array<byte>, off: nat, typ: uint16, len: uint16, data: Option<seq<byte>>, o: Opts)
    requires LenFits(len, o) && (data.Some? ==> |data.value| >= len)
    requires off + HdrSize(o) + (if data.Some? then len else 0) <= buf.Length
    modifies buf
    ensures buf[off..off + HdrSize(o)] == Header(typ, len, o)
    ensures data.Some? ==> buf[off + HdrSize(o)..off + HdrSize(o) + len] == data.value[..len]
    ensures forall i :: 0 <= i < buf.Length && !(off <= i < off + HdrSize(o) + (if data.Some? then len else 0)) ==>
              buf[i] == old(buf[i])
  {
    hide Header, HdrSize;
    var p := PutHeader(buf, off, typ, len, o);
    if data.Some? {
      ghost var h := buf[off..p];
      CopyIn(buf, p, data.value[..len]);
      assert buf[off..p] == h;
    }
  }

  /** `bcm_pack_xtlv_entry` */
  method PackEntry(buf: array<byte>, off: nat, buflen: nat, typ: uint16, len: uint16, src: Option<seq<byte>>, o: Opts)
    returns (res: Status, off': nat, buflen': nat)
    requires off + buflen <= buf.Length && LenFits(len, o) && (src.Some? ==> |src.value| >= len)
    modifies buf
    ensures res == if SizeForData(len, o) > buflen then BadLen else Ok
    ensures off' + buflen' == off + buflen && off' == off + if res == Ok then SizeForData(len, o) else 0
    ensures res == Ok ==> buf[off..off + HdrSize(o)] == Header(typ, len, o)
    ensures res == Ok && src.Some? ==> buf[off + HdrSize(o)..off + HdrSize(o) + len] == src.value[..len]
    ensures forall i :: 0 <= i < buf.Length && !(off <= i < off') ==> buf[i] == old(buf[i])
  {
    hide Header;
    var size := SizeForData(len, o);
    if size > buflen {
      return BadLen, off, buflen;
    }
    PackXtlv(buf, off, typ, len, src, o);
    off' := off + size;
    buflen' := buflen - size;
    res := Ok;
  }

  /** Everything a run of the packer can have written so far still reads as packed when more is added. */
  lemma {:induction false} PackedAppend(b: seq<byte>, items: seq<Desc>, d: Desc, e: seq<byte>, o: Opts)
    requires AllWellFormed(items) && WellFormed(d) && Packed(b, items, o)
    requires if Active(d) then |e| == SizeForData(d.len, o) && e[..|Element(d, o)|] == Element(d, o)
             else e == []
    ensures AllWellFormed(items + [d]) && Packed(b + e, items + [d], o)
  {
    var t := items + [d];
    if items == [] {
      assert t[1..] == [] && b + e == e;
      if Active(d) { assert e[|e|..] == []; }
    } else {
      assert t[0] == items[0] && t[1..] == items[1..] + [d];
      if Active(items[0]) {
        var n, k := SizeForData(items[0].len, o), |Element(items[0], o)|;
        assert (b + e)[n..] == b[n..] + e && (b + e)[..k] == b[..k];
        PackedAppend(b[n..], items[1..], d, e, o);
      } else {
        PackedAppend(b, items[1..], d, e, o);
      }
    }
  }

  lemma {:induction false} TotalAppend(items: seq<Desc>, d: Desc, o: Opts)
    ensures Total(items + [d], o) == Total(items, o) + if Active(d) then SizeForData(d.len, o) else 0
  {
    var t := items + [d];
    if items == [] {
      assert t[1..] == [];
    } else {
      assert t[1..] == items[1..] + [d];
      TotalAppend(items[1..], d, o);
    }
  }

  lemma {:induction false} TotalPrefix(items: seq<Desc>, k: nat, o: Opts)
    requires k <= |items|
    ensures Total(items[..k], o) <= Total(items, o)
  {
    if k == 0 {
    } else {
      assert items[..k][1..] == items[1..][..k - 1];
      TotalPrefix(items[1..], k - 1, o);
    }
  }

  /** `bcm_pack_xtlv_buf_from_mem`; `items` is the list up to its terminating zero type. */
  method PackFromMem(buf: array<byte>, off0: nat, buflen0: nat, items: seq<Desc>, o: Opts)
    returns (res: Status, off: nat, buflen: nat)
    requires off0 + buflen0 <= buf.Length && AllWellFormed(items)
    requires forall i :: 0 <= i < |items| && Active(items[i]) ==> LenFits(items[i].len, o)
    modifies buf
    ensures res == if Total(items, o) <= buflen0 then Ok else BadLen
    ensures off0 <= off && off + buflen == off0 + buflen0
    ensures res == Ok ==> off == off0 + Total(items, o) && Packed(buf[off0..off], items, o)
    ensures res == Ok && !o.align32 ==> buf[off0..off] == Elements(items, o)
    ensures forall i :: 0 <= i < buf.Length && !(off0 <= i < off) ==> buf[i] == old(buf[i])
  {
    hide Packed, Element, Elements, SizeForData, Total, Header, HdrSize;
    var k := 0;
    res, off, buflen := Ok, off0, buflen0;
    NothingPacked(o);
    assert items[..0] == [] && buf[off..off] == [];
    while k < |items|
      invariant 0 <= k <= |items| && off0 <= off && off + buflen == off0 + buflen0 && res == Ok
      invariant off == off0 + Total(items[..k], o) && Packed(buf[off0..off], items[..k], o)
      invariant forall i :: 0 <= i < buf.Length && !(off0 <= i < off) ==> buf[i] == old(buf[i])
    {
      var d := items[k];
      ghost var from, before := off, buf[..];
      assert items[..k + 1] == items[..k] + [d];
      TotalAppend(items[..k], d, o);
      TotalPrefix(items, k + 1, o);
      if d.len != 0 && d.ptr.Some? {
        res, off, buflen := PackEntry(buf, off, buflen, d.typ, d.len, d.ptr, o);
        if res != Ok {
          return;
        }
        PackedMore(before, buf[..], off0, from, off, items[..k], d, o);
      } else {
        PackedAppend(buf[off0..off], items[..k], d, [], o);
        assert buf[off0..off] + [] == buf[off0..off];
      }
      k := k + 1;
    }
    assert items[..k] == items;
    if !o.align32 { PackedIsElements(buf[off0..off], items, o); }
  }

  /** One more element behind what is packed already. */
  lemma PackedMore(before: seq<byte>, after: seq<byte>, off0: nat, from: nat, to: nat,
                   items: seq<Desc>, d: Desc, o: Opts)
    requires off0 <= from && from + SizeForData(d.len, o) == to <= |before| == |after|
    requires forall i :: off0 <= i < from ==> before[i] == after[i]
    requires AllWellFormed(items) && WellFormed(d) && Active(d) && Packed(before[off0..from], items, o)
    requires after[from..from + HdrSize(o)] == Header(d.typ, d.len, o)
    requires after[from + HdrSize(o)..from + HdrSize(o) + d.len] == d.ptr.value[..d.len]
    ensures AllWellFormed(items + [d]) && Packed(after[off0..to], items + [d], o)
  {
    hide Packed, Element, Header, HdrSize, SizeForData;
    SameSlice(before, after, off0, from);
    Join(after, off0, from, to);
    ElementWritten(after, from, to, d, o);
    PackedAppend(before[off0..from], items, d, after[from..to], o);
  }

  lemma ElementWritten(s: seq<byte>, from: nat, to: nat, d: Desc, o: Opts)
    requires WellFormed(d) && Active(d) && from + SizeForData(d.len, o) == to <= |s|
    requires s[from..from + HdrSize(o)] == Header(d.typ, d.len, o)
    requires s[from + HdrSize(o)..from + HdrSize(o) + d.len] == d.ptr.value[..d.len]
    ensures s[from..to][..|Element(d, o)|] == Element(d, o)
  {
    hide Header, HdrSize, SizeForData;
    var h := from + HdrSize(o);
    Join(s, from, h, h + d.len);
    Front(s, from, h + d.len, to);
  }

  lemma SameSlice(s: seq<byte>, t: seq<byte>, a: nat, c: nat)
    requires a <= c <= |s| == |t| && forall i :: a <= i < c ==> s[i] == t[i]
    ensures s[a..c] == t[a..c]
  {
  }

  lemma Front(s: seq<byte>, a: nat, m: nat, c: nat)
    requires a <= m <= c <= |s|
    ensures s[a..c][..m - a] == s[a..m]
  {
  }

  lemma Join(s: seq<byte>, a: nat, m: nat, c: nat)
    requires a <= m <= c <= |s|
    ensures s[a..c] == s[a..m] + s[m..c]
  {
  }

  lemma NothingPacked(o: Opts)
    ensures Total([], o) == 0 && Packed([], [], o)
  {
  }

  // ----- unpacking -----

  /** Every descriptor has a memory region large enough for its length. */
  predicate Regions(items: seq<Desc>, mem: seq<seq<byte>>)
  {
    |mem| == |items| && forall i :: 0 <= i < |items| ==> |mem[i]| >= items[i].len
  }

  /** A region whose first bytes are overwritten. */
  function Overwrite(region: seq<byte>, data: seq<byte>): (r: seq<byte>)
    requires |data| <= |region|
    ensures |r| == |region| && r[..|data|] == data && r[|data|..] == region[|data|..]
  {
    data + region[|data|..]
  }

  /** The descriptor search from position `k` on: the first one of that type takes the data, if the
      length is its own. */
  function Store(items: seq<Desc>, k: nat, mem: seq<seq<byte>>, typ: nat, data: seq<byte>):
      (r: (Status, seq<seq<byte>>))
    requires k <= |items| && Regions(items, mem)
    ensures Regions(items, r.1) && (r.0 == Ok || r.0 == BadLen)
    decreases |items| - k
  {
    if k == |items| then (Ok, mem)
    else if items[k].typ != typ then Store(items, k + 1, mem, typ, data)
    else if items[k].len != |data| then (BadLen, mem)
    else (Ok, mem[k := Overwrite(mem[k], data)])
  }

  /** The data of the element at the front of `b`. */
  function DataOf(b: seq<byte>, o: Opts, past: byte): (d: seq<byte>)
    requires ValidElt(b, o, past)
    ensures |d| == Len(b, o, past)
  {
    b[HdrSize(o)..HdrSize(o) + Len(b, o, past)]
  }

  /** What follows the element at the front of `b`. */
  function NextOf(b: seq<byte>, o: Opts, past: byte): (r: seq<byte>)
    requires ValidElt(b, o, past)
    ensures |r| < |b|
  {
    b[SizeForData(Len(b, o, past), o)..]
  }

  /** Unpacking the bytes `b`: the status, the regions afterwards and the length left. */
  function Unpacked(b: seq<byte>, items: seq<Desc>, mem: seq<seq<byte>>, o: Opts, past: byte):
      (Status, seq<seq<byte>>, nat)
    requires ValidElt(b, o, past) && Regions(items, mem)
    decreases |b|
  {
    var st := Store(items, 0, mem, Id(b, o), DataOf(b, o, past));
    var rest := NextOf(b, o, past);
    if st.0 != Ok then (st.0, st.1, |rest|)
    else if !ValidElt(rest, o, past) then (if |rest| != 0 then BufTooShort else Ok, st.1, |rest|)
    else Unpacked(rest, items, st.1, o, past)
  }

  /** The descriptor loop inside `bcm_unpack_xtlv_buf_to_mem`. */
  method StoreElement(items: seq<Desc>, mem: array<seq<byte>>, typ: nat, data: seq<byte>) returns (res: Status)
    requires Regions(items, mem[..])
    modifies mem
    ensures (res, mem[..]) == Store(items, 0, old(mem[..]), typ, data)
  {
    var k := 0;
    res := Ok;
    while k < |items|
      invariant 0 <= k <= |items| && res == Ok && mem[..] == old(mem[..])
      invariant Store(items, 0, mem[..], typ, data) == Store(items, k, mem[..], typ, data)
    {
      if typ == items[k].typ {
        if |data| != items[k].len {
          res := BadLen;
        } else {
          mem[k] := Overwrite(mem[k], data);
        }
        return;
      }
      k := k + 1;
    }
  }

  /** `bcm_unpack_xtlv_buf_to_mem` on the whole of `buf`. */
  method UnpackToMem(buf: seq<byte>, items: seq<Desc>, mem: array<seq<byte>>, o: Opts, past: byte)
    returns (res: Status, buflen: nat)
    requires Regions(items, mem[..])
    modifies mem
    ensures !ValidElt(buf, o, past) ==> res == BadArg && buflen == |buf| && mem[..] == old(mem[..])
    ensures ValidElt(buf, o, past) ==> (res, mem[..], buflen) == Unpacked(buf, items, old(mem[..]), o, past)
    ensures (res == Ok ==> buflen == 0) && (res == BufTooShort ==> buflen != 0)
  {
    hide Store, ValidElt, SizeForData, Len, Id, DataOf, Regions;
    buflen := |buf|;
    if !ValidElt(buf, o, past) {
      return BadArg, buflen;
    }
    res := Ok;
    var elt := true;
    ghost var m0 := mem[..];
    while elt && res == Ok
      invariant buflen <= |buf| && Regions(items, mem[..]) && res != BufTooShort
      invariant elt ==> ValidElt(buf[|buf| - buflen..], o, past)
      invariant Unpacked(buf, items, m0, o, past) ==
                if elt && res == Ok then Unpacked(buf[|buf| - buflen..], items, mem[..], o, past)
                else (if res == Ok && buflen != 0 then BufTooShort else res, mem[..], buflen)
      decreases buflen, elt && res == Ok
    {
      var b := buf[|buf| - buflen..];
      SizeInside(b, o, past);
      StoreKeepsRegions(items, mem[..], Id(b, o), DataOf(b, o, past));
      res := StoreElement(items, mem, Id(b, o), DataOf(b, o, past));
      buflen := buflen - SizeForData(Len(b, o, past), o);
      assert buf[|buf| - buflen..] == NextOf(b, o, past);
      elt := ValidElt(buf[|buf| - buflen..], o, past);
    }
    if res == Ok && buflen != 0 {
      res := BufTooShort;
    }
  }

  /** The first descriptor of a type. */
  predicate FirstOf(items: seq<Desc>, typ: nat, k: nat)
  {
    k < |items| && items[k].typ == typ && forall j :: 0 <= j < k ==> items[j].typ != typ
  }

  lemma {:induction false} StoreFirst(items: seq<Desc>, i: nat, k: nat, mem: seq<seq<byte>>, typ: nat, data: seq<byte>)
    requires i <= k && FirstOf(items, typ, k) && Regions(items, mem)
    ensures Store(items, i, mem, typ, data) ==
              if items[k].len != |data| then (BadLen, mem) else (Ok, mem[k := Overwrite(mem[k], data)])
    decreases k - i
  {
    hide Overwrite;
    if i == k {
    } else {
      StoreFirst(items, i + 1, k, mem, typ, data);
    }
  }

  lemma {:induction false} StoreNone(items: seq<Desc>, i: nat, mem: seq<seq<byte>>, typ: nat, data: seq<byte>)
    requires i <= |items| && Regions(items, mem) && forall j :: 0 <= j < |items| ==> items[j].typ != typ
    ensures Store(items, i, mem, typ, data) == (Ok, mem)
    decreases |items| - i
  {
    if i == |items| {
    } else {
      StoreNone(items, i + 1, mem, typ, data);
    }
  }

  /** What the unpacker makes of the rest after an element that caused no error: done, an error if bytes are
      left that are no element, or the next element. */
  function AfterElement(b: seq<byte>, items: seq<Desc>, mem: seq<seq<byte>>, o: Opts, past: byte):
      (Status, seq<seq<byte>>, nat)
    requires Regions(items, mem)
  {
    if b == [] then (Ok, mem, 0)
    else if !ValidElt(b, o, past) then (BufTooShort, mem, |b|)
    else Unpacked(b, items, mem, o, past)
  }

  /** The unpacker on any buffer, packed or not: an element of an unlisted type is skipped, ... */
  lemma UnpackUnlisted(b: seq<byte>, items: seq<Desc>, mem: seq<seq<byte>>, o: Opts, past: byte)
    requires ValidElt(b, o, past) && Regions(items, mem)
    requires forall j :: 0 <= j < |items| ==> items[j].typ != Id(b, o)
    ensures Unpacked(b, items, mem, o, past) == AfterElement(NextOf(b, o, past), items, mem, o, past)
  {
    hide Id, Len, DataOf, NextOf, Store, Regions, SizeForData;
    EmptyIsDone(o, past);
    StoreNone(items, 0, mem, Id(b, o), DataOf(b, o, past));
  }

  /** ... one of a listed type but another length ends with an error, and one of its length is stored. */
  lemma UnpackListed(b: seq<byte>, items: seq<Desc>, k: nat, mem: seq<seq<byte>>, o: Opts, past: byte)
    requires ValidElt(b, o, past) && Regions(items, mem) && FirstOf(items, Id(b, o), k)
    ensures k < |items| == |mem|
    ensures items[k].len != Len(b, o, past) ==>
              Unpacked(b, items, mem, o, past) == (BadLen, mem, |NextOf(b, o, past)|)
    ensures items[k].len == Len(b, o, past) ==>
              && |DataOf(b, o, past)| <= |mem[k]|
              && Regions(items, mem[k := Overwrite(mem[k], DataOf(b, o, past))])
              && Unpacked(b, items, mem, o, past) ==
                   AfterElement(NextOf(b, o, past), items, mem[k := Overwrite(mem[k], DataOf(b, o, past))], o, past)
  {
    hide Id, Len, DataOf, NextOf, Store, SizeForData, Overwrite;
    EmptyIsDone(o, past);
    StoreFirst(items, 0, k, mem, Id(b, o), DataOf(b, o, past));
  }

  lemma StoreKeepsRegions(items: seq<Desc>, mem: seq<seq<byte>>, typ: nat, data: seq<byte>)
    requires Regions(items, mem)
    ensures Regions(items, Store(items, 0, mem, typ, data).1)
  {
  }

  lemma SizeInside(b: seq<byte>, o: Opts, past: byte)
    requires ValidElt(b, o, past)
    ensures |b| >= HdrSize(o) && 0 < SizeForData(Len(b, o, past), o) <= |b|
  {
  }

  // ----- the round trip -----

  /** Whether the readers get back what the packer wrote for `d`. The packer always writes low byte first, so
      a field read as big-endian must have two equal bytes; a big-endian length behind an 8-bit identifier is
      read one byte too far and takes its low byte from the data. */
  predicate ReadsBack(d: Desc, o: Opts)
    requires WellFormed(d) && Active(d)
  {
    && (if o.idU8 then d.typ < 256 else o.idBE ==> d.typ / 256 == d.typ % 256)
    && (if o.lenU8 then d.len < 256
        else o.lenBE ==> d.len % 256 == if o.idU8 then Payload(d)[0] else d.len / 256)
  }

  /** The readers return the identifier and the length that were packed exactly then, for every element and
      every mix of options. */
  lemma FrontReads(b: seq<byte>, d: Desc, o: Opts, past: byte)
    requires WellFormed(d) && Active(d)
    requires |b| >= |Element(d, o)| && b[..|Element(d, o)|] == Element(d, o)
    ensures Id(b, o) == d.typ && Len(b, o, past) == d.len <==> ReadsBack(d, o)
  {
    var e, h := Element(d, o), Header(d.typ, d.len, o);
    assert forall i :: 0 <= i < |e| ==> b[i] == e[i];
    assert forall i :: 0 <= i < |h| ==> b[i] == h[i];
    assert b[|h|] == Payload(d)[0];
  }

  /** The element at the front is then the one packed. */
  lemma FrontElement(b: seq<byte>, d: Desc, o: Opts, past: byte)
    requires WellFormed(d) && Active(d) && ReadsBack(d, o)
    requires |b| >= SizeForData(d.len, o) && b[..|Element(d, o)|] == Element(d, o)
    ensures ValidElt(b, o, past) && Id(b, o) == d.typ && Len(b, o, past) == d.len
    ensures DataOf(b, o, past) == Payload(d) && NextOf(b, o, past) == b[SizeForData(d.len, o)..]
  {
    hide Header, Id, Len, ReadsBack;
    FrontReads(b, d, o, past);
    assert b[HdrSize(o)..HdrSize(o) + d.len] == b[..|Element(d, o)|][HdrSize(o)..];
  }

  /** A buffer that starts with a header, whatever its length field and even if that is 0, is a valid element
      exactly when the whole padded element is there. */
  lemma ValidExactly(b: seq<byte>, typ: uint16, len: uint16, o: Opts, past: byte)
    requires LenFits(len, o) && (o.lenBE ==> o.lenU8)
    requires |b| >= HdrSize(o) && b[..HdrSize(o)] == Header(typ, len, o)
    ensures Len(b, o, past) == len
    ensures ValidElt(b, o, past) <==> |b| >= SizeForData(len, o)
  {
    var h := Header(typ, len, o);
    assert forall i :: 0 <= i < |h| ==> b[i] == h[i];
  }

  /** Where the mix of an 8-bit identifier and a big-endian 16-bit length reads: the last header byte and the
      byte after the header, which for a bare header lies outside the buffer. */
  lemma ReadsPastHeader(b: seq<byte>, o: Opts, past: byte)
    requires o.idU8 && o.lenBE && !o.lenU8 && |b| >= HdrSize(o)
    ensures Len(b, o, past) == Le16((b + [past])[HdrSize(o)], b[HdrSize(o) - 1])
  {
  }

  /** Type 1 with the one byte 7, packed and read with each field big-endian: the field comes back as 256. */
  lemma BigEndianMisread(past: byte)
    ensures var d, plain := Desc(1, 1, Some([7])), Opts(false, false, false, false, false);
            && Element(d, plain) == [1, 0, 1, 0, 7]
            && Id(Element(d, plain), plain.(idBE := true)) == 256
            && Len(Element(d, plain), plain.(lenBE := true), past) == 256
  {
  }

  predicate DistinctTypes(items: seq<Desc>)
  {
    forall i, j :: 0 <= i < j < |items| ==> items[i].typ != items[j].typ
  }

  /** With distinct types the search stores at the descriptor itself. */
  lemma {:induction false} StoreAt(items: seq<Desc>, k: nat, i: nat, mem: seq<seq<byte>>, data: seq<byte>)
    requires k <= i < |items| && Regions(items, mem) && DistinctTypes(items) && |data| == items[i].len
    ensures Store(items, k, mem, items[i].typ, data) == (Ok, mem[i := Overwrite(mem[i], data)])
    decreases i - k
  {
    if k == i {
    } else {
      StoreAt(items, k + 1, i, mem, data);
    }
  }

  /** The regions once the active descriptors from `k` on have received their payloads. */
  function Restored(items: seq<Desc>, k: nat, mem: seq<seq<byte>>): (r: seq<seq<byte>>)
    requires k <= |items| && Regions(items, mem) && AllWellFormed(items)
    ensures Regions(items, r)
    ensures forall i :: 0 <= i < |items| ==>
              r[i] == if i >= k && Active(items[i]) then Overwrite(mem[i], Payload(items[i])) else mem[i]
    decreases |items| - k
  {
    if k == |items| then mem
    else if Active(items[k]) then Restored(items, k + 1, mem[k := Overwrite(mem[k], Payload(items[k]))])
    else Restored(items, k + 1, mem)
  }

  /** Unpacking what packing the descriptors from `k` on produced. */
  lemma {:induction false} UnpackPacked(b: seq<byte>, items: seq<Desc>, k: nat, mem: seq<seq<byte>>,
                                        o: Opts, past: byte)
    requires AllWellFormed(items) && DistinctTypes(items) && Regions(items, mem) && k <= |items|
    requires forall i :: 0 <= i < |items| && Active(items[i]) ==> ReadsBack(items[i], o)
    requires Packed(b, items[k..], o) && b != []
    ensures ValidElt(b, o, past) && Unpacked(b, items, mem, o, past) == (Ok, Restored(items, k, mem), 0)
    decreases |items| - k
  {
    hide Store, Id, Len, DataOf, NextOf, ValidElt, Element, SizeForData, ReadsBack, Overwrite, Regions;
    assert items[k..] != [];
    var d := items[k];
    assert items[k..][0] == d && items[k..][1..] == items[k + 1..];
    if Active(d) {
      var rest := b[SizeForData(d.len, o)..];
      FrontElement(b, d, o, past);
      StoreAt(items, 0, k, mem, Payload(d));
      var mem1 := Store(items, 0, mem, d.typ, Payload(d)).1;
      if rest == [] {
        EmptyIsDone(o, past);
        NothingLeft(rest, items, k + 1, mem1, o);
      } else {
        UnpackPacked(rest, items, k + 1, mem1, o, past);
      }
    } else {
      UnpackPacked(b, items, k + 1, mem, o, past);
    }
  }

  lemma EmptyIsDone(o: Opts, past: byte)
    ensures !ValidElt([], o, past)
  {
  }

  /** An empty packed rest means that no active descriptor is left. */
  lemma {:induction false} NothingLeft(b: seq<byte>, items: seq<Desc>, k: nat, mem: seq<seq<byte>>, o: Opts)
    requires AllWellFormed(items) && Regions(items, mem) && k <= |items|
    requires b == [] && Packed(b, items[k..], o)
    ensures Restored(items, k, mem) == mem
    decreases |items| - k
  {
    if k == |items| {
    } else {
      assert items[k..][0] == items[k] && items[k..][1..] == items[k + 1..];
      NothingLeft(b, items, k + 1, mem, o);
    }
  }

  /** Packing with enough space and unpacking exactly the packed bytes restores every payload, leaves the
      rest of every region alone and uses the buffer up. */
  method RoundTrip(buf: array<byte>, items: seq<Desc>, mem: array<seq<byte>>, o: Opts, past: byte)
    returns (res: Status)
    requires AllWellFormed(items) && DistinctTypes(items) && Regions(items, mem[..])
    requires forall i :: 0 <= i < |items| && Active(items[i]) ==> ReadsBack(items[i], o)
    requires exists i :: 0 <= i < |items| && Active(items[i])
    requires Total(items, o) <= buf.Length
    modifies buf, mem
    ensures res == Ok
    ensures forall i :: 0 <= i < |items| ==>
              mem[i] == if Active(items[i]) then Overwrite(old(mem[i]), Payload(items[i])) else old(mem[i])
    ensures forall i :: 0 <= i < |items| && Active(items[i]) ==>
              && |mem[i]| == |old(mem[i])| >= items[i].len
              && mem[i][..items[i].len] == items[i].ptr.value[..items[i].len]
              && mem[i][items[i].len..] == old(mem[i])[items[i].len..]
  {
    var r, off, left := PackFromMem(buf, 0, buf.Length, items, o);
    ghost var b := buf[..off];
    assert buf[0..off] == b && items[0..] == items;
    SomethingPacked(items, o);
    assert |b| == off == Total(items, o);
    UnpackPacked(b, items, 0, mem[..], o, past);
    res, left := UnpackToMem(buf[..off], items, mem, o, past);
  }

  lemma {:induction false} SomethingPacked(items: seq<Desc>, o: Opts)
    requires exists i :: 0 <= i < |items| && Active(items[i])
    ensures Total(items, o) > 0
  {
    if Active(items[0]) {
    } else {
      var i :| 0 <= i < |items| && Active(items[i]);
      assert Active(items[1..][i - 1]);
      SomethingPacked(items[1..], o);
    }
  }
}
