/** The cursor-based radiotap field search of src/bcmwifi_radiotap.c. Positions are relative to the start
    of the field area. */
module Radiotap {
  import opened Bits
  import opened Wrappers

  const EXT: nat := 31

  datatype Field = Field(len: nat, align: nat)

  /** `rtap_parse_info` */
  const PARSE_INFO: seq<Field> := [
    Field(8, 8), Field(1, 1), Field(1, 1), Field(4, 2), Field(2, 2), Field(1, 1), Field(1, 1), Field(2, 2),
    Field(2, 2), Field(2, 2), Field(1, 1), Field(1, 1), Field(1, 1), Field(1, 1), Field(0, 0), Field(2, 2),
    Field(0, 0), Field(1, 1), Field(8, 4), Field(3, 1), Field(8, 4), Field(12, 2), Field(0, 0), Field(0, 0),
    Field(0, 0), Field(0, 0), Field(0, 0), Field(0, 0), Field(0, 0), Field(0, 0), Field(6, 2), Field(0, 0)
  ]

  /** The table entry of a field; an alignment of 0 means there is no parse information. */
  function Info(i: nat): (f: Field)
    requires i <= EXT
    ensures f.align == 0 || f.align == 1 || f.align == 2 || f.align == 4 || f.align == 8
  {
    PARSE_INFO[i]
  }

  /** `ROUNDUP`: the next multiple of the alignment. */
  function RoundUp(x: nat, align: nat): (r: nat)
    requires align > 0
    ensures r % align == 0 && x <= r < x + align
  {
    RoundUpFacts(x, align);
    ((x + (align - 1)) / align) * align
  }

  /** Rounding up takes off the remainder of `x + (align - 1)`. */
  lemma RoundUpFacts(x: nat, align: nat)
    requires align > 0
    ensures var r := ((x + (align - 1)) / align) * align; r % align == 0 && x <= r < x + align
  {
    var y := x + (align - 1);
    var k := y / align;
    Quotient(y, align);
    DivModUnique(k * align, align, k, 0);
  }

  /** What a header presents: its presence bitmap and the length of its field area. */
  datatype Header = Header(present: uint32, fieldsLen: nat)

  /** Where field `i` starts if the field before it ended at `offset`. */
  function Start(i: nat, offset: nat): nat
    requires i <= EXT && Info(i).align > 0
  {
    RoundUp(offset, Info(i).align)
  }

  /** A present field that cannot be placed: no parse information, or it would pass the end. */
  predicate Blocked(h: Header, i: nat, offset: nat)
    requires i <= EXT
  {
    Bit(h.present, i) &&
    (Info(i).align == 0 || Start(i, offset) + Info(i).len > h.fieldsLen)
  }

  /** Layout of a header, independent of any parser: where the fields before `i` end, if all of those
      present can be placed. */
  function EndBefore(h: Header, i: nat): (r: Option<nat>)
    requires i <= EXT + 1
    ensures r.Some? ==> r.value <= h.fieldsLen
  {
    if i == 0 then Some(0)
    else
      match EndBefore(h, i - 1)
      case None => None
      case Some(offset) =>
        if !Bit(h.present, i - 1) then Some(offset)
        else if Blocked(h, i - 1, offset) then None
        else Some(Start(i - 1, offset) + Info(i - 1).len)
  }

  /** The position of field `i`: it is present, and it and every present field before it can be placed. */
  function Position(h: Header, i: nat): (r: Option<nat>)
  {
    if i > EXT || !Bit(h.present, i) then None
    else
      match EndBefore(h, i)
      case None => None
      case Some(offset) => if Blocked(h, i, offset) then None else Some(Start(i, offset))
  }

  /** A field found lies inside the field area, at its alignment, and past the fields before it. */
  lemma PositionIsSound(h: Header, i: nat)
    requires Position(h, i).Some?
    ensures i <= EXT && Info(i).align > 0
    ensures Position(h, i).value + Info(i).len <= h.fieldsLen
    ensures Position(h, i).value % Info(i).align == 0
    ensures EndBefore(h, i).Some? && EndBefore(h, i).value <= Position(h, i).value
  {
  }

  /** Two fields found do not overlap and come in index order. */
  lemma {:induction false} PositionsAreOrdered(h: Header, i: nat, j: nat)
    requires i < j && Position(h, i).Some? && Position(h, j).Some?
    ensures Position(h, i).value + Info(i).len <= Position(h, j).value
  {
    EndBeforeGrows(h, i + 1, j);
    PositionIsSound(h, j);
  }

  lemma {:induction false} EndBeforeGrows(h: Header, i: nat, j: nat)
    requires i <= j <= EXT + 1 && EndBefore(h, j).Some?
    ensures EndBefore(h, i).Some? && EndBefore(h, i).value <= EndBefore(h, j).value
    decreases j
  {
    if i == j {
    } else {
      EndBeforeGrows(h, i, j - 1);
    }
  }

  /** Once a field cannot be placed, no later one can. */
  lemma {:induction false} StaysBlocked(h: Header, i: nat, j: nat)
    requires i <= j <= EXT + 1 && EndBefore(h, i) == None
    ensures EndBefore(h, j) == None
    decreases j
  {
    if i == j {
    } else {
      StaysBlocked(h, i, j - 1);
    }
  }

  // ----- the layout without an end -----

  /** Where the fields before `i` end in a field area without end, if all those present have parse
      information. */
  function NaturalEnd(present: uint32, i: nat): (r: Option<nat>)
    requires i <= EXT + 1
  {
    if i == 0 then Some(0)
    else
      match NaturalEnd(present, i - 1)
      case None => None
      case Some(end) =>
        if !Bit(present, i - 1) then Some(end)
        else if Info(i - 1).align == 0 then None
        else Some(RoundUp(end, Info(i - 1).align) + Info(i - 1).len)
  }

  lemma {:induction false} EndIsNatural(h: Header, i: nat)
    requires i <= EXT + 1
    ensures EndBefore(h, i) ==
              if NaturalEnd(h.present, i).Some? && NaturalEnd(h.present, i).value <= h.fieldsLen
              then NaturalEnd(h.present, i) else None
    decreases i
  {
    hide RoundUp, Info, Bit;
    if i == 0 {
    } else {
      EndIsNatural(h, i - 1);
    }
  }

  /** A field is found exactly when it is present, it and every present field before it have parse information,
      and they all end within the field area; it then ends where it would in an area without end. */
  lemma FoundExactly(h: Header, i: nat)
    ensures Position(h, i).Some? <==>
            && i <= EXT && Bit(h.present, i)
            && NaturalEnd(h.present, i + 1).Some? && NaturalEnd(h.present, i + 1).value <= h.fieldsLen
    ensures Position(h, i).Some? ==> Position(h, i).value + Info(i).len == NaturalEnd(h.present, i + 1).value
  {
    hide RoundUp, Info, Bit;
    if i <= EXT {
      EndIsNatural(h, i);
      EndIsNatural(h, i + 1);
    }
  }

  /** The fields with parse information. */
  predicate Parsed(k: nat) { k <= 13 || k == 15 || 17 <= k <= 21 || k == 30 }

  /** With all of them present each ends where its size and alignment in the table put it. */
  lemma FullLayout(present: uint32)
    requires forall k: nat :: k <= EXT ==> (Bit(present, k) <==> Parsed(k))
    ensures [NaturalEnd(present, 1), NaturalEnd(present, 2), NaturalEnd(present, 3), NaturalEnd(present, 4)]
              == [Some(8), Some(9), Some(10), Some(14)]
    ensures [NaturalEnd(present, 5), NaturalEnd(present, 6), NaturalEnd(present, 7), NaturalEnd(present, 8)]
              == [Some(16), Some(17), Some(18), Some(20)]
    ensures [NaturalEnd(present, 9), NaturalEnd(present, 10), NaturalEnd(present, 11), NaturalEnd(present, 12)]
              == [Some(22), Some(24), Some(25), Some(26)]
    ensures [NaturalEnd(present, 13), NaturalEnd(present, 14), NaturalEnd(present, 16), NaturalEnd(present, 18)]
              == [Some(27), Some(28), Some(30), Some(31)]
    ensures [NaturalEnd(present, 19), NaturalEnd(present, 20), NaturalEnd(present, 21), NaturalEnd(present, 22)]
              == [Some(40), Some(43), Some(52), Some(64)]
    ensures NaturalEnd(present, 31) == Some(70)
  {
    hide NaturalEnd, Info, Bit;
    EntriesTo6();
    EntriesTo13();
    EntriesTo30();
    NoFields(present);
    NextEnd(present, 0, 0, 0); NextEnd(present, 1, 8, 8); NextEnd(present, 2, 9, 9); NextEnd(present, 3, 10, 10);
    NextEnd(present, 4, 14, 14); NextEnd(present, 5, 16, 16); NextEnd(present, 6, 17, 17); NextEnd(present, 7, 18, 18);
    NextEnd(present, 8, 20, 20); NextEnd(present, 9, 22, 22); NextEnd(present, 10, 24, 24);
    NextEnd(present, 11, 25, 25); NextEnd(present, 12, 26, 26); NextEnd(present, 13, 27, 27);
    NotPresent(present, 14, 28); NextEnd(present, 15, 28, 28); NotPresent(present, 16, 30);
    NextEnd(present, 17, 30, 30); NextEnd(present, 18, 31, 32); NextEnd(present, 19, 40, 40);
    NextEnd(present, 20, 43, 44); NextEnd(present, 21, 52, 52); NotPresent(present, 22, 64);
    NotPresent(present, 23, 64); NotPresent(present, 24, 64); NotPresent(present, 25, 64);
    NotPresent(present, 26, 64); NotPresent(present, 27, 64); NotPresent(present, 28, 64);
    NotPresent(present, 29, 64); NextEnd(present, 30, 64, 64);
  }

  /** The next present field starts at the first aligned offset. */
  lemma NextEnd(present: uint32, k: nat, end: nat, start: nat)
    requires k <= EXT && NaturalEnd(present, k) == Some(end) && Bit(present, k) && Info(k).align > 0
    requires end <= start < end + Info(k).align && start % Info(k).align == 0
    ensures NaturalEnd(present, k + 1) == Some(start + Info(k).len)
  {
    hide RoundUp, Bit, Info;
    RoundUpIs(end, Info(k).align, start);
  }

  lemma NotPresent(present: uint32, k: nat, end: nat)
    requires k <= EXT && NaturalEnd(present, k) == Some(end) && !Bit(present, k)
    ensures NaturalEnd(present, k + 1) == Some(end)
  {
  }

  lemma NoFields(present: uint32)
    ensures NaturalEnd(present, 0) == Some(0)
  {
  }

  /** Only one offset is the next aligned one. */
  lemma RoundUpIs(x: nat, align: nat, r: nat)
    requires align > 0 && r % align == 0 && x <= r < x + align
    ensures RoundUp(x, align) == r
  {
    hide RoundUp;
    var y := RoundUp(x, align);
    Quotient(r, align);
    Quotient(y, align);
    NextMultiple(r / align, align);
    NextMultiple(y / align, align);
    if r / align < y / align {
      ProductGrows(r / align + 1, y / align, align);
    } else if y / align < r / align {
      ProductGrows(y / align + 1, r / align, align);
    }
  }

  lemma EntriesTo6()
    ensures Info(0) == Field(8, 8) && Info(1) == Info(2) == Field(1, 1) && Info(3) == Field(4, 2)
    ensures Info(4) == Field(2, 2) && Info(5) == Info(6) == Field(1, 1)
  {
  }

  lemma EntriesTo13()
    ensures Info(7) == Info(8) == Info(9) == Field(2, 2)
    ensures Info(10) == Info(11) == Info(12) == Info(13) == Field(1, 1)
  {
  }

  lemma EntriesTo30()
    ensures Info(15) == Field(2, 2) && Info(17) == Field(1, 1) && Info(18) == Info(20) == Field(8, 4)
    ensures Info(19) == Field(3, 1) && Info(21) == Field(12, 2) && Info(30) == Field(6, 2)
  {
  }

  class Parser {
    const hdr: Header
    var idx: nat
    var offset: nat

    /** The saved position is one the layout defines: everything before `idx` ends at `offset`. */
    ghost predicate Valid()
      reads this
    {
      idx <= EXT + 1 && EndBefore(hdr, idx) == Some(offset)
    }

    constructor (h: Header)
      ensures Valid() && hdr == h
    {
      hdr := h;
      idx, offset := 0, 0;
    }

    /** `wl_rtapParseReset` */
    method Reset()
      modifies this
      ensures Valid() && idx == 0
    {
      idx := 0;
      offset := 0;
    }

    /** `wl_rtapParseFindField`: from any saved position, the answer is the layout's; the position saved is past
        the field searched for, or at the first field that cannot be placed. */
    method FindField(searchIdx: nat) returns (ptr: Option<nat>)
      requires Valid()
      modifies this
      ensures Valid() && ptr == Position(hdr, searchIdx)
      ensures searchIdx > EXT ==> idx == old(idx)
      ensures searchIdx <= EXT && EndBefore(hdr, searchIdx + 1).Some? ==> idx == searchIdx + 1
      ensures searchIdx <= EXT && EndBefore(hdr, searchIdx + 1).None? ==>
                idx <= searchIdx && EndBefore(hdr, idx + 1).None?
    {
      hide RoundUp, Info, Bit;
      ptr := None;
      if searchIdx > EXT {
        return;
      }
      if searchIdx < idx {
        Reset();
      }
      var i, o := idx, offset;
      while i <= searchIdx
        invariant i <= searchIdx + 1 && EndBefore(hdr, i) == Some(o)
        invariant ptr == if i <= searchIdx then None else Position(hdr, searchIdx)
      {
        if Bit(hdr.present, i) {
          if Info(i).align == 0 {
            StaysBlockedPosition(hdr, i, searchIdx);
            StaysBlocked(hdr, i + 1, searchIdx + 1);
            break;
          }
          var align, len := Info(i).align, Info(i).len;
          var fieldOffset := RoundUp(o, align);
          if fieldOffset + len > hdr.fieldsLen {
            StaysBlockedPosition(hdr, i, searchIdx);
            StaysBlocked(hdr, i + 1, searchIdx + 1);
            break;
          }
          if i == searchIdx {
            ptr := Some(fieldOffset);
          }
          o := fieldOffset + len;
        }
        i := i + 1;
      }
      idx := i;
      offset := o;
    }
  }

  lemma StaysBlockedPosition(h: Header, i: nat, j: nat)
    requires i <= j <= EXT && EndBefore(h, i).Some? && Blocked(h, i, EndBefore(h, i).value)
    ensures Position(h, j) == None
  {
    if i < j { StaysBlocked(h, i + 1, j); }
  }

  /** A whole sequence of searches on one parser, in any order and with repeats: every answer is the one a
      freshly reset parser gives. */
  method FindAll(h: Header, wanted: seq<nat>) returns (answers: seq<Option<nat>>)
    ensures |answers| == |wanted|
    ensures forall k :: 0 <= k < |wanted| ==> answers[k] == Position(h, wanted[k])
  {
    var p := new Parser(h);
    answers := [];
    while |answers| < |wanted|
      invariant |answers| <= |wanted| && p.Valid() && p.hdr == h && fresh(p)
      invariant forall k :: 0 <= k < |answers| ==> answers[k] == Position(h, wanted[k])
      decreases |wanted| - |answers|
    {
      var a := p.FindField(wanted[|answers|]);
      answers := answers + [a];
    }
  }
}
