/** Splitting a packet chain into CMD53 block transfers: the multi-descriptor branch of
    `sdioh_request_packet_chain` (src/bcmsdh_sdmmc.c). A chain is the sequence of its packets' bytes. */
module PacketChain {
  import opened Bits

  const MAX_IO_RW_EXTENDED_BLK: nat := 511
  const MAX_SG_ENTRIES: nat := 64

  /** A scatter-gather entry: `len` bytes of packet `pkt` from `off` on. */
  datatype Seg = Seg(pkt: nat, off: nat, len: nat)

  /** A command put on the bus. */
  datatype Cmd = Cmd(arg: nat, blocks: nat, segs: seq<Seg>)

  datatype Outcome = Success | SgOverflow | Misaligned | BusError

  /** Host limits and the function's block size. */
  datatype Limits = Limits(blkSize: nat, maxBlkCount: nat, maxReqSize: nat, maxSegSize: nat)

  predicate Positive(l: Limits)
  {
    0 < l.blkSize < 0x80_0000 && l.maxBlkCount > 0 && l.maxReqSize > 0 && l.maxSegSize > 0
  }

  function Min(a: nat, b: nat): nat { if a < b then a else b }

  /** The request size the routine works with. */
  function MaxReq(l: Limits): (m: nat)
    ensures Positive(l) ==> m > 0
    ensures m <= l.maxReqSize
  {
    Min(Min(l.maxBlkCount, MAX_IO_RW_EXTENDED_BLK) * l.blkSize, l.maxReqSize)
  }

  /** It is the largest within the host's block count, the 511 blocks of a command and the host's request
      size. */
  lemma MaxReqIsLargest(l: Limits, n: nat)
    ensures n <= MaxReq(l) <==>
            n <= l.maxReqSize && n <= l.maxBlkCount * l.blkSize && n <= MAX_IO_RW_EXTENDED_BLK * l.blkSize
  {
    if l.maxBlkCount < MAX_IO_RW_EXTENDED_BLK {
      ProductGrows(l.maxBlkCount, MAX_IO_RW_EXTENDED_BLK, l.blkSize);
    } else {
      ProductGrows(MAX_IO_RW_EXTENDED_BLK, l.maxBlkCount, l.blkSize);
    }
  }

  // ----- bytes -----

  function Flatten(pkts: seq<seq<byte>>): seq<byte>
  {
    if pkts == [] then [] else pkts[0] + Flatten(pkts[1..])
  }

  /** What is left of the chain from byte `off` of packet `p` on. */
  function Rest(pkts: seq<seq<byte>>, p: nat, off: nat): seq<byte>
    requires p <= |pkts| && (p < |pkts| ==> off <= |pkts[p]|)
  {
    if p == |pkts| then [] else pkts[p][off..] + Flatten(pkts[p + 1..])
  }

  predicate Inside(pkts: seq<seq<byte>>, s: Seg)
  {
    s.pkt < |pkts| && s.off + s.len <= |pkts[s.pkt]|
  }

  predicate AllInside(pkts: seq<seq<byte>>, segs: seq<Seg>)
  {
    forall i :: 0 <= i < |segs| ==> Inside(pkts, segs[i])
  }

  function SegBytes(pkts: seq<seq<byte>>, segs: seq<Seg>): (b: seq<byte>)
    requires AllInside(pkts, segs)
  {
    if segs == [] then []
    else
      var s := segs[|segs| - 1];
      SegBytes(pkts, segs[..|segs| - 1]) + pkts[s.pkt][s.off..s.off + s.len]
  }

  predicate CmdsInside(pkts: seq<seq<byte>>, cmds: seq<Cmd>)
  {
    forall i :: 0 <= i < |cmds| ==> AllInside(pkts, cmds[i].segs)
  }

  function CmdBytes(pkts: seq<seq<byte>>, cmds: seq<Cmd>): (b: seq<byte>)
    requires CmdsInside(pkts, cmds)
  {
    if cmds == [] then []
    else CmdBytes(pkts, cmds[..|cmds| - 1]) + SegBytes(pkts, cmds[|cmds| - 1].segs)
  }

  lemma SegAppend(pkts: seq<seq<byte>>, segs: seq<Seg>, s: Seg)
    requires AllInside(pkts, segs) && Inside(pkts, s)
    ensures AllInside(pkts, segs + [s])
    ensures SegBytes(pkts, segs + [s]) == SegBytes(pkts, segs) + pkts[s.pkt][s.off..s.off + s.len]
  {
    assert (segs + [s])[..|segs|] == segs;
  }

  lemma CmdAppend(pkts: seq<seq<byte>>, cmds: seq<Cmd>, c: Cmd)
    requires CmdsInside(pkts, cmds) && AllInside(pkts, c.segs)
    ensures CmdsInside(pkts, cmds + [c])
    ensures CmdBytes(pkts, cmds + [c]) == CmdBytes(pkts, cmds) + SegBytes(pkts, c.segs)
  {
    assert (cmds + [c])[..|cmds|] == cmds;
  }

  lemma Assoc(a: seq<byte>, b: seq<byte>, c: seq<byte>)
    ensures (a + b) + c == a + (b + c)
  {
  }

  lemma Cut(s: seq<byte>, off: nat, n: nat)
    requires off + n <= |s|
    ensures s[off..] == s[off..off + n] + s[off + n..]
  {
  }

  /** Taking `n` bytes off the front of what is left. */
  lemma RestStep(pkts: seq<seq<byte>>, p: nat, off: nat, n: nat)
    requires p < |pkts| && off + n <= |pkts[p]|
    ensures Rest(pkts, p, off) == pkts[p][off..off + n] + Rest(pkts, p, off + n)
  {
    hide Flatten;
    Cut(pkts[p], off, n);
    Assoc(pkts[p][off..off + n], pkts[p][off + n..], Flatten(pkts[p + 1..]));
  }

  /** A finished packet leaves the next one. */
  lemma RestNext(pkts: seq<seq<byte>>, p: nat)
    requires p < |pkts|
    ensures Rest(pkts, p, |pkts[p]|) == Rest(pkts, p + 1, 0)
  {
    var t := pkts[p + 1..];
    assert Rest(pkts, p, |pkts[p]|) == Flatten(t);
    if t != [] {
      assert t[0] == pkts[p + 1] && t[1..] == pkts[p + 2..];
    }
  }

  lemma RestStart(pkts: seq<seq<byte>>)
    ensures Rest(pkts, 0, 0) == Flatten(pkts)
  {
  }

  // ----- the command argument -----

  /** `mmc_cmd.arg` as the code assembles it: direction, function, block mode, address increment,
      17 address bits and 9 count bits. */
  function Arg(write: bool, func: nat, fifo: bool, addr: uint32, blkNum: nat): nat
  {
    Or(Or(Or(if write then Shl(1, 31) else 0, Shl(Trunc(func, 3), 28)),
          Or(Shl(1, 27), if fifo then 0 else Shl(1, 26))),
       Or(Shl(Trunc(addr, 17), 9), Trunc(blkNum, 9)))
  }

  /** Every field of the argument reads back. */
  lemma ArgDecodes(write: bool, func: nat, fifo: bool, addr: uint32, blkNum: nat)
    ensures var a := Arg(write, func, fifo, addr, blkNum);
            && a < 0x1_0000_0000
            && Bit(a, 31) == write && Bit(a, 27) && Bit(a, 26) == !fifo
            && Trunc(Shr(a, 28), 3) == Trunc(func, 3)
            && Trunc(Shr(a, 9), 17) == Trunc(addr, 17)
            && Trunc(a, 9) == Trunc(blkNum, 9)
  {
    ZeroBits();
    BitOfOne();
    var a := Arg(write, func, fifo, addr, blkNum);
    hide Bit, Shl, Trunc, Or, Arg, Shr;
    forall k: nat ensures Bit(a, k) == ArgSource(write, func, fifo, addr, blkNum, k) {
      ArgBit(write, func, fifo, addr, blkNum, k);
    }
    ArgFits(a);
    SameBits(Trunc(Shr(a, 28), 3), Trunc(func, 3));
    SameBits(Trunc(Shr(a, 9), 17), Trunc(addr, 17));
    SameBits(Trunc(a, 9), Trunc(blkNum, 9));
  }

  /** Which bit of the argument comes from where. */
  predicate ArgSource(write: bool, func: nat, fifo: bool, addr: uint32, blkNum: nat, k: nat)
  {
    if k < 9 then Bit(blkNum, k)
    else if k < 26 then Bit(addr, k - 9)
    else if k == 26 then !fifo
    else if k == 27 then true
    else if k < 31 then Bit(func, k - 28)
    else k == 31 && write
  }

  lemma ArgBit(write: bool, func: nat, fifo: bool, addr: uint32, blkNum: nat, k: nat)
    ensures Bit(Arg(write, func, fifo, addr, blkNum), k) == ArgSource(write, func, fifo, addr, blkNum, k)
  {
    ZeroBits();
    BitOfOne();
    hide Bit, Shl, Trunc, Or;
    var dir, fn := if write then Shl(1, 31) else 0, Shl(Trunc(func, 3), 28);
    var inc, ad := if fifo then 0 else Shl(1, 26), Shl(Trunc(addr, 17), 9);
    assert Bit(Or(dir, fn), k) == ((write && k == 31) || (28 <= k < 31 && Bit(func, k - 28)));
    assert Bit(Or(Shl(1, 27), inc), k) == (k == 27 || (k == 26 && !fifo));
    assert Bit(Or(ad, Trunc(blkNum, 9)), k) ==
             ((9 <= k < 26 && Bit(addr, k - 9)) || (k < 9 && Bit(blkNum, k)));
  }

  lemma ArgFits(a: nat)
    requires forall k: nat :: k >= 32 ==> !Bit(a, k)
    ensures a < 0x1_0000_0000
  {
    Powers();
    FitsIfClear(a, 32);
  }

  lemma BitOfOne()
    ensures forall k: nat :: Bit(1, k) == (k == 0)
  {
    forall k: nat ensures Bit(1, k) == (k == 0) {
      if k > 0 { ZeroBit(k - 1); }
    }
  }

  /** A block count of at most 511 survives the 9-bit field. */
  lemma BlockCountSurvives(write: bool, func: nat, fifo: bool, addr: uint32, blkNum: nat)
    requires blkNum <= MAX_IO_RW_EXTENDED_BLK
    ensures Trunc(Arg(write, func, fifo, addr, blkNum), 9) == blkNum
  {
    hide Arg, Trunc, Shr, Bit;
    ArgDecodes(write, func, fifo, addr, blkNum);
    assert Pow2(9) == 2 * Pow2(8) == 512 by { Powers(); }
    TruncFits(blkNum, 9);
  }

  // ----- what the commands issued must satisfy -----

  /** One command: whole blocks, few enough, within every limit, and an argument that says so. */
  ghost predicate Sound(pkts: seq<seq<byte>>, l: Limits, c: Cmd)
    requires AllInside(pkts, c.segs)
  {
    && |SegBytes(pkts, c.segs)| == c.blocks * l.blkSize
    && c.blocks <= MAX_IO_RW_EXTENDED_BLK && c.blocks <= l.maxBlkCount
    && |SegBytes(pkts, c.segs)| <= MaxReq(l)
    && |c.segs| <= MAX_SG_ENTRIES
    && (forall i :: 0 <= i < |c.segs| ==> c.segs[i].len <= l.maxSegSize)
    && Trunc(c.arg, 9) == c.blocks
    && (NoneEmpty(pkts) ==> c.blocks > 0)
  }

  predicate NoneEmpty(pkts: seq<seq<byte>>)
  {
    forall i :: 0 <= i < |pkts| ==> pkts[i] != []
  }

  /** The commands issued: each is sound, every one but the last is as large as a request may be, and
      their addresses are fixed for a FIFO and otherwise advance by the bytes already sent. */
  ghost predicate Issued(pkts: seq<seq<byte>>, l: Limits, cmds: seq<Cmd>,
                         write: bool, func: nat, fifo: bool, addr: uint32)
  {
    && CmdsInside(pkts, cmds)
    && (forall i :: 0 <= i < |cmds| ==> Sound(pkts, l, cmds[i]))
    && (forall i :: 0 <= i < |cmds| - 1 ==> |SegBytes(pkts, cmds[i].segs)| == MaxReq(l))
    && (forall i :: 0 <= i < |cmds| ==>
          && CmdsInside(pkts, cmds[..i])
          && cmds[i].arg == ArgFor(pkts, cmds[..i], write, func, fifo, addr, cmds[i].blocks))
  }

  /** The argument of the command that follows `before`. */
  function ArgFor(pkts: seq<seq<byte>>, before: seq<Cmd>,
                  write: bool, func: nat, fifo: bool, addr: uint32, blocks: nat): nat
    requires CmdsInside(pkts, before)
  {
    Arg(write, func, fifo, if fifo then addr else (addr + |CmdBytes(pkts, before)|) % 0x1_0000_0000, blocks)
  }

  /** The alignment a chain of `total` bytes needs: whole blocks, and if one request cannot hold it, whole
      blocks in the largest request. */
  predicate Aligned(total: nat, l: Limits)
    requires Positive(l)
  {
    total % l.blkSize == 0 && (total > MaxReq(l) ==> MaxReq(l) % l.blkSize == 0)
  }

  /** What the outer loop keeps about lengths: the bytes sent are whole blocks, and a second command, or a
      rest after the first, means the first one filled a block-aligned request. */
  predicate Balanced(l: Limits, sent: nat, n: nat, more: bool)
    requires Positive(l)
  {
    && sent % l.blkSize == 0
    && (n == 0 ==> sent == 0)
    && (n == 1 ==> sent <= MaxReq(l))
    && (n > 1 || (n == 1 && more) ==> MaxReq(l) % l.blkSize == 0)
  }

  /** Adding to whole blocks leaves the odd bytes of what is added. */
  lemma AddToBlocks(a: nat, b: nat, m: nat)
    requires m > 0 && a % m == 0
    ensures (a + b) % m == b % m
  {
    Quotient(a, m);
    SkipMultiples(a / m, m, b);
  }

  /** A gathered request of whole blocks has at most 511 of them, and at most as many as the host takes. */
  lemma FewBlocks(l: Limits, ttl: nat)
    requires Positive(l) && ttl <= MaxReq(l) && ttl % l.blkSize == 0
    ensures ttl == (ttl / l.blkSize) * l.blkSize
    ensures ttl / l.blkSize <= MAX_IO_RW_EXTENDED_BLK && ttl / l.blkSize <= l.maxBlkCount
  {
    hide MaxReq;
    var n := ttl / l.blkSize;
    Quotient(ttl, l.blkSize);
    MaxReqIsLargest(l, ttl);
    AtMost(n, MAX_IO_RW_EXTENDED_BLK, l.blkSize);
    AtMost(n, l.maxBlkCount, l.blkSize);
  }

  lemma AtMost(n: nat, c: nat, m: nat)
    requires m > 0 && n * m <= c * m
    ensures n <= c
  {
    if n > c {
      ProductGrows(c + 1, n, m);
      NextMultiple(c, m);
    }
  }

  // ----- empty packets -----

  /** What the last packet of the chain means for the last command, of `n` bytes: the inner loop takes an
      empty packet only while the request has room, and a command without bytes only from empty packets. */
  predicate LastLoad(pkts: seq<seq<byte>>, l: Limits, n: nat)
    requires pkts != []
  {
    var last := pkts[|pkts| - 1];
    (last == [] ==> n < MaxReq(l)) && (n == 0 ==> last == [])
  }

  /** The number of commands that send a chain of `total` bytes, `emptyEnd` if its last packet is empty. */
  function CommandCount(total: nat, emptyEnd: bool, l: Limits): nat
    requires Positive(l)
  {
    total / MaxReq(l) + if emptyEnd || total % MaxReq(l) != 0 then 1 else 0
  }

  predicate ZeroBlocks(cmds: seq<Cmd>)
  {
    exists i :: 0 <= i < |cmds| && cmds[i].blocks == 0
  }

  lemma {:induction false} FullCommands(pkts: seq<seq<byte>>, l: Limits, cmds: seq<Cmd>)
    requires CmdsInside(pkts, cmds)
    requires forall i :: 0 <= i < |cmds| ==> |SegBytes(pkts, cmds[i].segs)| == MaxReq(l)
    ensures |CmdBytes(pkts, cmds)| == |cmds| * MaxReq(l)
  {
    hide MaxReq, SegBytes;
    if cmds == [] {
    } else {
      FullCommands(pkts, l, cmds[..|cmds| - 1]);
      NextMultiple(|cmds| - 1, MaxReq(l));
    }
  }

  lemma CountFromLengths(l: Limits, k: nat, n: nat, total: nat, emptyEnd: bool)
    requires Positive(l) && total == k * MaxReq(l) + n && n <= MaxReq(l)
    requires (emptyEnd ==> n < MaxReq(l)) && (n == 0 ==> emptyEnd)
    ensures k + 1 == CommandCount(total, emptyEnd, l)
    ensures n == 0 <==> emptyEnd && total % MaxReq(l) == 0
  {
    hide MaxReq;
    var m := MaxReq(l);
    if n < m {
      DivModUnique(total, m, k, n);
    } else {
      NextMultiple(k, m);
      DivModUnique(total, m, k + 1, 0);
    }
  }

  /** A chain sent completely took exactly that many commands, and one of them has zero blocks exactly when
      the chain ends in an empty packet and its bytes fill whole requests. */
  lemma ZeroBlocksExactly(pkts: seq<seq<byte>>, l: Limits, cmds: seq<Cmd>,
                          write: bool, func: nat, fifo: bool, addr: uint32)
    requires Positive(l) && pkts != [] && cmds != [] && Issued(pkts, l, cmds, write, func, fifo, addr)
    requires LastLoad(pkts, l, |SegBytes(pkts, cmds[|cmds| - 1].segs)|)
    ensures CmdsInside(pkts, cmds)
    ensures var total, emptyEnd := |CmdBytes(pkts, cmds)|, pkts[|pkts| - 1] == [];
            && |cmds| == CommandCount(total, emptyEnd, l)
            && (ZeroBlocks(cmds) <==> emptyEnd && total % MaxReq(l) == 0)
  {
    hide MaxReq, SegBytes, ArgFor, CommandCount, Trunc, NoneEmpty;
    var k := |cmds| - 1;
    var n := |SegBytes(pkts, cmds[k].segs)|;
    FullCommands(pkts, l, cmds[..k]);
    assert forall i :: 0 <= i < |cmds| ==> Sound(pkts, l, cmds[i]);
    CountFromLengths(l, k, n, |CmdBytes(pkts, cmds)|, pkts[|pkts| - 1] == []);
    forall i | 0 <= i < |cmds| ensures cmds[i].blocks == 0 <==> |SegBytes(pkts, cmds[i].segs)| == 0 {
      NoBlocks(cmds[i].blocks, l.blkSize);
    }
    assert MaxReq(l) > 0;
    if n == 0 { assert cmds[k].blocks == 0; }
  }

  lemma NoBlocks(blocks: nat, blkSize: nat)
    requires blkSize > 0
    ensures blocks == 0 <==> blocks * blkSize == 0
  {
  }

  // ----- the routine -----

  lemma NoBytes(pkts: seq<seq<byte>>)
    ensures SegBytes(pkts, []) == []
  {
  }

  /** The inner loop: fill one scatter-gather list from the current position. */
  method Gather(pkts: seq<seq<byte>>, l: Limits, p0: nat, off0: nat)
    returns (full: bool, segs: seq<Seg>, ttl: nat, p: nat, off: nat)
    requires Positive(l) && p0 < |pkts| && off0 <= |pkts[p0]| && (off0 == |pkts[p0]| ==> off0 == 0)
    ensures p0 <= p <= |pkts| && (p < |pkts| ==> off <= |pkts[p]| && (off == |pkts[p]| ==> off == 0))
    ensures AllInside(pkts, segs) && ttl == |SegBytes(pkts, segs)| <= MaxReq(l) && |segs| <= MAX_SG_ENTRIES
    ensures Rest(pkts, p0, off0) == SegBytes(pkts, segs) + Rest(pkts, p, off)
    ensures forall i :: 0 <= i < |segs| ==> segs[i].len <= l.maxSegSize
    ensures full ==> |segs| == MAX_SG_ENTRIES < |pkts| + ttl / l.maxSegSize && p < |pkts| && ttl < MaxReq(l)
    ensures p == |pkts| ==> LastLoad(pkts, l, ttl)
    ensures !full ==> ttl == MaxReq(l) || p == |pkts|
    ensures p > p0 || (p == p0 && off > off0)
    ensures NoneEmpty(pkts) ==> ttl > 0
  {
    hide Flatten, Rest, MaxReq, SegBytes;
    assert SegBytes(pkts, []) == [] by { NoBytes(pkts); }
    var maxReq := MaxReq(l);
    segs, ttl, p, off, full := [], 0, p0, off0, false;
    ghost var whole: nat := 0;
    while p < |pkts| && ttl < maxReq
      invariant p0 <= p <= |pkts| && (p < |pkts| ==> off <= |pkts[p]| && (off == |pkts[p]| ==> off == 0))
      invariant AllInside(pkts, segs) && ttl == |SegBytes(pkts, segs)| <= maxReq && |segs| <= MAX_SG_ENTRIES
      invariant Rest(pkts, p0, off0) == SegBytes(pkts, segs) + Rest(pkts, p, off)
      invariant forall i :: 0 <= i < |segs| ==> segs[i].len <= l.maxSegSize
      invariant ttl < maxReq ==> |segs| == p - p0 + whole && whole * l.maxSegSize <= ttl
      invariant p == |pkts| ==> LastLoad(pkts, l, ttl)
      invariant NoneEmpty(pkts) && segs != [] ==> ttl > 0
      invariant if segs == [] then p == p0 && off == off0 else p > p0 || (p == p0 && off > off0)
      decreases MAX_SG_ENTRIES - |segs|
    {
      if |segs| >= MAX_SG_ENTRIES {
        WholeSegments(whole, l.maxSegSize, ttl);
        full := true;
        return;
      }
      var n := |pkts[p]| - off;
      if n > maxReq - ttl {
        n := maxReq - ttl;
      }
      if n > l.maxSegSize {
        n := l.maxSegSize;
      }
      SegAppend(pkts, segs, Seg(p, off, n));
      RestStep(pkts, p, off, n);
      Assoc(SegBytes(pkts, segs), pkts[p][off..off + n], Rest(pkts, p, off + n));
      segs := segs + [Seg(p, off, n)];
      ttl := ttl + n;
      off := off + n;
      if off == |pkts[p]| {
        RestNext(pkts, p);
        p := p + 1;
        off := 0;
      } else {
        NextMultiple(whole, l.maxSegSize);
        whole := whole + 1;
      }
    }
  }

  lemma WholeSegments(k: nat, m: nat, n: nat)
    requires m > 0 && k * m <= n
    ensures k <= n / m
  {
    Quotient(n, m);
    if k > n / m {
      ProductGrows(n / m + 1, k, m);
      NextMultiple(n / m, m);
    }
  }

  /** The length bookkeeping of one iteration: whether the gathered request can be sent. */
  lemma BalanceStep(l: Limits, sent: nat, n: nat, ttl: nat, rest: nat, more: bool)
    requires Positive(l) && Balanced(l, sent, n, true) && ttl <= MaxReq(l)
    requires !more ==> rest == 0
    requires more ==> ttl == MaxReq(l)
    ensures ttl % l.blkSize == 0 ==> Balanced(l, sent + ttl, n + 1, more)
    ensures ttl % l.blkSize != 0 ==> !Aligned(sent + ttl + rest, l)
  {
    AddToBlocks(sent, ttl, l.blkSize);
  }

  lemma BalanceEnd(l: Limits, sent: nat, n: nat)
    requires Positive(l) && Balanced(l, sent, n, false)
    ensures Aligned(sent, l)
  {
  }

  /** Appending the command built from a gathered list. */
  lemma IssueStep(pkts: seq<seq<byte>>, l: Limits, cmds: seq<Cmd>, c: Cmd,
                  write: bool, func: nat, fifo: bool, addr: uint32)
    requires Issued(pkts, l, cmds, write, func, fifo, addr)
    requires forall i :: 0 <= i < |cmds| ==> |SegBytes(pkts, cmds[i].segs)| == MaxReq(l)
    requires AllInside(pkts, c.segs) && Sound(pkts, l, c)
    requires c.arg == ArgFor(pkts, cmds, write, func, fifo, addr, c.blocks)
    ensures Issued(pkts, l, cmds + [c], write, func, fifo, addr)
  {
    hide Sound, SegBytes, CmdBytes, ArgFor, MaxReq, AllInside;
    var d := cmds + [c];
    forall i | 0 <= i < |d|
      ensures CmdsInside(pkts, d[..i]) && d[i].arg == ArgFor(pkts, d[..i], write, func, fifo, addr, d[i].blocks)
    {
      if i < |cmds| { assert d[..i] == cmds[..i]; } else { assert d[..i] == cmds; }
    }
  }

  /** Sending a gathered list of whole blocks as the next command. */
  lemma SendStep(pkts: seq<seq<byte>>, l: Limits, cmds: seq<Cmd>, c: Cmd,
                 write: bool, func: nat, fifo: bool, addr0: uint32, addr: uint32)
    requires Positive(l) && Issued(pkts, l, cmds, write, func, fifo, addr0) && CmdsInside(pkts, cmds)
    requires forall i :: 0 <= i < |cmds| ==> |SegBytes(pkts, cmds[i].segs)| == MaxReq(l)
    requires addr == if fifo then addr0 else (addr0 + |CmdBytes(pkts, cmds)|) % 0x1_0000_0000
    requires AllInside(pkts, c.segs) && |SegBytes(pkts, c.segs)| <= MaxReq(l) && |c.segs| <= MAX_SG_ENTRIES
    requires forall i :: 0 <= i < |c.segs| ==> c.segs[i].len <= l.maxSegSize
    requires |SegBytes(pkts, c.segs)| % l.blkSize == 0 && c.blocks == |SegBytes(pkts, c.segs)| / l.blkSize
    requires c.arg == Arg(write, func, fifo, addr, c.blocks)
    requires NoneEmpty(pkts) ==> |SegBytes(pkts, c.segs)| > 0
    ensures Issued(pkts, l, cmds + [c], write, func, fifo, addr0) && CmdsInside(pkts, cmds + [c])
    ensures CmdBytes(pkts, cmds + [c]) == CmdBytes(pkts, cmds) + SegBytes(pkts, c.segs)
  {
    hide Arg, MaxReq, SegBytes, CmdBytes, Issued, NoneEmpty, Trunc;
    FewBlocks(l, |SegBytes(pkts, c.segs)|);
    BlockCountSurvives(write, func, fifo, addr, c.blocks);
    IssueStep(pkts, l, cmds, c, write, func, fifo, addr0);
    CmdAppend(pkts, cmds, c);
  }

  /** What the outer loop keeps: the commands so far and what is left make up the chain. */
  ghost predicate Progress(pkts: seq<seq<byte>>, l: Limits, write: bool, func: nat, fifo: bool, addr0: uint32,
                           cmds: seq<Cmd>, p: nat, off: nat, addr: uint32)
    requires Positive(l)
  {
    && p <= |pkts| && (p < |pkts| ==> off <= |pkts[p]| && (off == |pkts[p]| ==> off == 0))
    && CmdsInside(pkts, cmds) && Issued(pkts, l, cmds, write, func, fifo, addr0)
    && Flatten(pkts) == CmdBytes(pkts, cmds) + Rest(pkts, p, off)
    && Balanced(l, |CmdBytes(pkts, cmds)|, |cmds|, p < |pkts|)
    && (p < |pkts| ==> forall i :: 0 <= i < |cmds| ==> |SegBytes(pkts, cmds[i].segs)| == MaxReq(l))
    && (p == |pkts| ==> cmds != [] && pkts != [] && LastLoad(pkts, l, |SegBytes(pkts, cmds[|cmds| - 1].segs)|))
    && addr == if fifo then addr0 else (addr0 + |CmdBytes(pkts, cmds)|) % 0x1_0000_0000
  }

  /** A chain of `total` bytes cannot run out of entries: one that does not end a packet holds a whole segment,
      and a list that fills its request is sent. */
  predicate EntriesSuffice(pkts: seq<seq<byte>>, total: nat, l: Limits)
    requires Positive(l)
  {
    |pkts| + Min(total, MaxReq(l) - 1) / l.maxSegSize <= MAX_SG_ENTRIES
  }

  /** The list left unsent when there is no room for another entry: it does not fill a request, and what
      it holds follows what was sent. */
  ghost predicate Overflowed(pkts: seq<seq<byte>>, l: Limits, cmds: seq<Cmd>, pending: seq<Seg>)
    requires CmdsInside(pkts, cmds) && l.maxSegSize > 0
  {
    && AllInside(pkts, pending)
    && |pending| == MAX_SG_ENTRIES < |pkts| + |SegBytes(pkts, pending)| / l.maxSegSize
    && |SegBytes(pkts, pending)| < MaxReq(l)
    && CmdBytes(pkts, cmds) + SegBytes(pkts, pending) <= Flatten(pkts)
  }

  lemma TooManyEntries(pkts: seq<seq<byte>>, l: Limits, cmds: seq<Cmd>, pending: seq<Seg>)
    requires Positive(l) && CmdsInside(pkts, cmds) && Overflowed(pkts, l, cmds, pending)
    ensures !EntriesSuffice(pkts, |Flatten(pkts)|, l)
  {
    hide Flatten, SegBytes, CmdBytes, MaxReq;
    var n, most := |SegBytes(pkts, pending)|, Min(|Flatten(pkts)|, MaxReq(l) - 1);
    assert |CmdBytes(pkts, cmds) + SegBytes(pkts, pending)| <= |Flatten(pkts)|;
    assert n <= most;
    Quotient(n, l.maxSegSize);
    WholeSegments(n / l.maxSegSize, l.maxSegSize, most);
  }

  /** One round of the outer loop, up to the point where the command is handed to the bus. */
  method SendNext(pkts: seq<seq<byte>>, l: Limits, write: bool, func: nat, fifo: bool, ghost addr0: uint32,
                  cmds0: seq<Cmd>, p0: nat, off0: nat, addr1: uint32)
    returns (outcome: Outcome, cmds: seq<Cmd>, pending: seq<Seg>, p: nat, off: nat, addr: uint32)
    requires Positive(l) && p0 < |pkts|
    requires Progress(pkts, l, write, func, fifo, addr0, cmds0, p0, off0, addr1)
    ensures outcome == Success ==>
              && Progress(pkts, l, write, func, fifo, addr0, cmds, p, off, addr)
              && |cmds| == |cmds0| + 1 && (p > p0 || (p == p0 && off > off0))
    ensures outcome != Success ==> cmds == cmds0 && (outcome == SgOverflow || outcome == Misaligned)
    ensures outcome == SgOverflow ==> CmdsInside(pkts, cmds) && Overflowed(pkts, l, cmds, pending)
    ensures outcome == Misaligned ==> !Aligned(|Flatten(pkts)|, l)
  {
    hide Flatten, Rest, MaxReq, SegBytes, CmdBytes, Balanced, Aligned, Arg, Issued, NoneEmpty;
    ghost var sent := CmdBytes(pkts, cmds0);
    cmds, addr := cmds0, addr1;
    var full, ttl;
    full, pending, ttl, p, off := Gather(pkts, l, p0, off0);
    ghost var rest := Rest(pkts, p, off);
    Assoc(sent, SegBytes(pkts, pending), rest);
    if full {
      outcome := SgOverflow;
      return;
    }
    assert p == |pkts| ==> rest == [] by { RestEmpty(pkts, off); }
    BalanceStep(l, |sent|, |cmds0|, ttl, |rest|, p < |pkts|);
    if ttl % l.blkSize != 0 {
      outcome := Misaligned;
      return;
    }
    var blocks := ttl / l.blkSize;
    var c := Cmd(Arg(write, func, fifo, addr, blocks), blocks, pending);
    SendStep(pkts, l, cmds0, c, write, func, fifo, addr0, addr);
    cmds := cmds0 + [c];
    if !fifo {
      AddrStep(addr0, |sent|, ttl);
      addr := (addr + ttl) % 0x1_0000_0000;
    }
    outcome := Success;
  }

  /** The routine's outer loop. `bus(k)` says whether command `k` succeeds; `pending` is the list left
      over when the routine gives up before sending it. */
  method RequestPacketChain(pkts: seq<seq<byte>>, l: Limits, write: bool, func: nat, fifo: bool, addr0: uint32,
                            bus: nat -> bool)
    returns (outcome: Outcome, cmds: seq<Cmd>, pending: seq<Seg>)
    requires Positive(l) && pkts != []
    ensures Issued(pkts, l, cmds, write, func, fifo, addr0) && CmdsInside(pkts, cmds)
    ensures CmdBytes(pkts, cmds) <= Flatten(pkts)
    ensures forall k: nat :: k < |cmds| && (k < |cmds| - 1 || outcome != BusError) ==> bus(k)
    ensures outcome == Success ==> CmdBytes(pkts, cmds) == Flatten(pkts) && Aligned(|Flatten(pkts)|, l)
    ensures outcome == Success ==>
              && |cmds| == CommandCount(|Flatten(pkts)|, pkts[|pkts| - 1] == [], l)
              && (ZeroBlocks(cmds) <==> pkts[|pkts| - 1] == [] && |Flatten(pkts)| % MaxReq(l) == 0)
    ensures outcome == Misaligned ==> !Aligned(|Flatten(pkts)|, l)
    ensures outcome == BusError ==> cmds != [] && !bus(|cmds| - 1)
    ensures outcome == SgOverflow ==> Overflowed(pkts, l, cmds, pending)
    ensures EntriesSuffice(pkts, |Flatten(pkts)|, l) ==> outcome != SgOverflow
    ensures EntriesSuffice(pkts, |Flatten(pkts)|, l) && Aligned(|Flatten(pkts)|, l) && (forall k: nat :: bus(k)) ==>
              outcome == Success
  {
    hide EntriesSuffice;
    hide Flatten, Rest, MaxReq, SegBytes, CmdBytes, Aligned, Arg, Issued, Overflowed, Progress, ZeroBlocks;
    hide CommandCount;
    var p: nat, off: nat, addr := 0, 0, addr0;
    cmds, pending := [], [];
    ProgressStart(pkts, l, write, func, fifo, addr0);
    while p < |pkts|
      invariant Progress(pkts, l, write, func, fifo, addr0, cmds, p, off, addr)
      invariant forall k: nat :: k < |cmds| ==> bus(k)
      invariant p <= |pkts| && (p < |pkts| ==> off <= |pkts[p]|)
      decreases |pkts| - p, if p < |pkts| then |pkts[p]| - off else 0
    {
      ProgressFacts(pkts, l, write, func, fifo, addr0, cmds, p, off, addr);
      outcome, cmds, pending, p, off, addr := SendNext(pkts, l, write, func, fifo, addr0, cmds, p, off, addr);
      if outcome != Success {
        if outcome == SgOverflow { TooManyEntries(pkts, l, cmds, pending); }
        return;
      }
      ProgressFacts(pkts, l, write, func, fifo, addr0, cmds, p, off, addr);
      if !bus(|cmds| - 1) {
        outcome := BusError;
        return;
      }
    }
    ProgressFacts(pkts, l, write, func, fifo, addr0, cmds, p, off, addr);
    outcome := Success;
  }

  /** The address field of a command: the low 17 bits of the start address for a FIFO, and otherwise of that
      address advanced by the bytes of all commands before it. Its direction, function and FIFO bits are the
      caller's. */
  lemma AddressesAdvance(pkts: seq<seq<byte>>, l: Limits, cmds: seq<Cmd>, i: nat,
                         write: bool, func: nat, fifo: bool, addr: uint32)
    requires Issued(pkts, l, cmds, write, func, fifo, addr) && i < |cmds|
    ensures CmdsInside(pkts, cmds[..i])
    ensures fifo ==> Trunc(Shr(cmds[i].arg, 9), 17) == Trunc(addr, 17)
    ensures !fifo ==> Trunc(Shr(cmds[i].arg, 9), 17) ==
                        Trunc((addr + |CmdBytes(pkts, cmds[..i])|) % 0x1_0000_0000, 17)
    ensures Bit(cmds[i].arg, 31) == write && Bit(cmds[i].arg, 26) == !fifo
    ensures Trunc(Shr(cmds[i].arg, 28), 3) == Trunc(func, 3)
  {
    hide Arg, Trunc, Shr, Bit, CmdBytes, Sound, SegBytes;
    var at := if fifo then addr else (addr + |CmdBytes(pkts, cmds[..i])|) % 0x1_0000_0000;
    ArgDecodes(write, func, fifo, at, cmds[i].blocks);
  }

  /** A chain of one empty packet is sent as one command of zero blocks. */
  method EmptyPacket(l: Limits, write: bool, func: nat, fifo: bool, addr: uint32) returns (cmds: seq<Cmd>)
    requires Positive(l)
    ensures |cmds| == 1 && cmds[0].blocks == 0
  {
    hide Issued, Arg;
    var outcome, pending;
    assert Flatten([[]]) == [];
    outcome, cmds, pending := RequestPacketChain([[]], l, write, func, fifo, addr, (k: nat) => true);
    assert outcome == Success;
  }

  lemma ProgressFacts(pkts: seq<seq<byte>>, l: Limits, write: bool, func: nat, fifo: bool, addr0: uint32,
                      cmds: seq<Cmd>, p: nat, off: nat, addr: uint32)
    requires Positive(l) && Progress(pkts, l, write, func, fifo, addr0, cmds, p, off, addr)
    ensures p <= |pkts| && (p < |pkts| ==> off <= |pkts[p]|)
    ensures CmdsInside(pkts, cmds) && Issued(pkts, l, cmds, write, func, fifo, addr0)
    ensures CmdBytes(pkts, cmds) <= Flatten(pkts)
    ensures p == |pkts| ==>
              && CmdBytes(pkts, cmds) == Flatten(pkts) && Aligned(|Flatten(pkts)|, l) && pkts != []
              && |cmds| == CommandCount(|Flatten(pkts)|, pkts[|pkts| - 1] == [], l)
              && (ZeroBlocks(cmds) <==> pkts[|pkts| - 1] == [] && |Flatten(pkts)| % MaxReq(l) == 0)
  {
    hide Flatten, SegBytes, CmdBytes, Issued, MaxReq, CommandCount, ZeroBlocks, LastLoad;
    if p == |pkts| {
      BalanceEnd(l, |CmdBytes(pkts, cmds)|, |cmds|);
      ZeroBlocksExactly(pkts, l, cmds, write, func, fifo, addr0);
    }
  }

  lemma ProgressStart(pkts: seq<seq<byte>>, l: Limits, write: bool, func: nat, fifo: bool, addr0: uint32)
    requires Positive(l) && pkts != []
    ensures Progress(pkts, l, write, func, fifo, addr0, [], 0, 0, addr0)
  {
    NoCmdBytes(pkts);
    RestStart(pkts);
    BalanceStart(l);
  }

  lemma NoCmdBytes(pkts: seq<seq<byte>>)
    ensures CmdBytes(pkts, []) == []
  {
  }

  lemma RestEmpty(pkts: seq<seq<byte>>, off: nat)
    ensures Rest(pkts, |pkts|, off) == []
  {
  }

  lemma BalanceStart(l: Limits)
    requires Positive(l)
    ensures Balanced(l, 0, 0, true)
  {
  }

  lemma AddrStep(addr: nat, sent: nat, ttl: nat)
    ensures ((addr + sent) % W32 + ttl) % W32 == (addr + (sent + ttl)) % W32
  {
    Wraps(addr + sent, ttl, W32);
  }

  lemma Wraps(x: nat, y: nat, m: nat)
    requires m > 0
    ensures (x % m + y) % m == (x + y) % m
  {
    Quotient(x, m);
    SkipMultiples(x / m, m, x % m + y);
  }
}
