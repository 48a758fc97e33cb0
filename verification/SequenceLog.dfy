/** The run-length compressed log of 802.11 sequence numbers, `dbg_seq_log_seq` in its compressed
    form (src/bcmutils.c). One object stands for one `dbg_seq_log_id_t`. */
module SequenceLog {
  import opened Bits

  const LOG_MAX: nat := 10000
  const SEQ_START: nat := 0x1000
  const SEQ_END: nat := 0x2000
  const SEQNUM_MAX: nat := 0x1000

  /** The three fields of a log entry: `x & DBG_SEQ_SEQ_MASK` and the two flag bits. */
  function Num(x: uint16): (n: nat)
    ensures n < SEQNUM_MAX
  {
    x % SEQ_START
  }
  predicate Starts(x: uint16) { (x / SEQ_START) % 2 == 1 }
  predicate Ends(x: uint16) { (x / SEQ_END) % 2 == 1 }

  /** The consecutive numbers from `first` to `last`. */
  function Run(first: nat, last: nat): (r: seq<nat>)
    decreases last - first
  {
    if last < first then [] else [first] + Run(first + 1, last)
  }

  /** Reading the log back: an entry with both flags is one number, a start followed by an end is a
      run, and a trailing start is the run still open, which reaches up to `last`. */
  function Expand(es: seq<uint16>, last: nat): seq<nat>
  {
    if es == [] then []
    else if Starts(es[0]) && Ends(es[0]) then [Num(es[0])] + Expand(es[1..], last)
    else if |es| == 1 then Run(Num(es[0]), last)
    else Run(Num(es[0]), Num(es[1])) + Expand(es[2..], last)
  }

  /** No run is left open. */
  predicate Closed(es: seq<uint16>)
  {
    es == [] ||
    (Starts(es[0]) && if Ends(es[0]) then Closed(es[1..])
                      else |es| > 1 && !Starts(es[1]) && Ends(es[1]) && Closed(es[2..]))
  }

  lemma {:induction false} RunGrows(first: nat, last: nat)
    requires first <= last
    ensures Run(first, last + 1) == Run(first, last) + [last + 1]
    decreases last - first
  {
    if first < last {
      RunGrows(first + 1, last);
    } else {
      assert Run(first + 1, last) == [] && Run(last + 2, last + 1) == [];
    }
  }

  lemma RunOne(n: nat)
    ensures Run(n, n) == [n]
  {
    assert Run(n + 1, n) == [];
  }

  /** A closed log followed by more entries expands piece by piece. */
  lemma {:induction false} ExpandConcat(c: seq<uint16>, d: seq<uint16>, last: nat)
    requires Closed(c)
    ensures Expand(c + d, last) == Expand(c, 0) + Expand(d, last)
    ensures Closed(d) ==> Closed(c + d)
    decreases |c|
  {
    if c == [] {
      assert c + d == d;
    } else if Ends(c[0]) {
      assert (c + d)[1..] == c[1..] + d;
      ExpandConcat(c[1..], d, last);
    } else {
      assert (c + d)[2..] == c[2..] + d;
      ExpandConcat(c[2..], d, last);
    }
  }

  // ----- the slots a sequence of numbers takes -----

  /** `n` continues the run that ends the numbers `h`; 0 never does. */
  predicate Continues(h: seq<nat>, n: nat) { h != [] && n == h[|h| - 1] + 1 }

  /** The last number is alone in its run. */
  predicate Alone(h: seq<nat>) { h != [] && !Continues(h[..|h| - 1], h[|h| - 1]) }

  /** The number that began the last run. */
  function RunStart(h: seq<nat>): (n: nat)
    requires h != []
  {
    if Alone(h) then h[|h| - 1] else RunStart(h[..|h| - 1])
  }

  /** One slot for every run, and one more for every run of several numbers that has come to its end. */
  function Slots(h: seq<nat>): nat
  {
    if h == [] then 0
    else
      var p, n := h[..|h| - 1], h[|h| - 1];
      Slots(p) + if p == [] then 1 else if Continues(p, n) then 0 else if Alone(p) then 1 else 2
  }

  /** The last run goes up from its start, so it consists of one number exactly if it starts at the last. */
  lemma {:induction false} RunStartAlone(h: seq<nat>)
    requires h != []
    ensures RunStart(h) <= h[|h| - 1] && (RunStart(h) == h[|h| - 1] <==> Alone(h))
  {
    if Alone(h) {
    } else {
      RunStartAlone(h[..|h| - 1]);
    }
  }

  /** A whole run of consecutive numbers takes one slot while it is open, however long it is. */
  lemma {:induction false} RunTakesOneSlot(first: nat, last: nat)
    requires first <= last
    ensures Slots(Run(first, last)) == 1 && |Run(first, last)| == last - first + 1
    ensures Run(first, last)[|Run(first, last)| - 1] == last
    decreases last
  {
    if first == last {
      RunOne(first);
      assert [first][..0] == [];
    } else {
      RunTakesOneSlot(first, last - 1);
      RunGrows(first, last - 1);
      var p := Run(first, last - 1);
      assert Run(first, last)[..|p|] == p;
    }
  }

  lemma SlotsAppend(h: seq<nat>, n: nat)
    ensures Slots(h + [n]) == Slots(h) + if h == [] then 1 else if Continues(h, n) then 0 else if Alone(h) then 1 else 2
    ensures RunStart(h + [n]) == if Continues(h, n) then RunStart(h) else n
  {
    assert (h + [n])[..|h|] == h;
  }

  class Log {
    var entries: array<uint16>
    var idx: nat
    var lastSeq: uint16
    var expSeq: uint16

    /** Everything logged since the log was cleared, and the slots written for it. */
    ghost var history: seq<nat>
    ghost var used: nat

    ghost predicate Valid()
      reads this, entries
    {
      && entries.Length == LOG_MAX && idx < LOG_MAX && used == Slots(history)
      && (if history == [] then idx == 0 && entries[0] == 0 else Current())
      && (used < LOG_MAX ==> Faithful())
    }

    /** The current entry is the open run that ends at `lastSeq`, slots reused or not. */
    ghost predicate Current()
      requires entries.Length == LOG_MAX && idx < LOG_MAX && history != []
      reads this, entries
    {
      && Starts(entries[idx]) && !Ends(entries[idx]) && Num(entries[idx]) == RunStart(history)
      && lastSeq == history[|history| - 1] && lastSeq < SEQNUM_MAX && expSeq == (lastSeq + 1) % SEQNUM_MAX
    }

    /** While no slot has been reused: nothing is logged yet, or the current entry is the open run
        that ends at `lastSeq`. */
    ghost predicate Faithful()
      requires entries.Length == LOG_MAX && idx < LOG_MAX
      reads this, entries
    {
      if idx == 0 then used == 0 && history == [] && entries[0] == 0
      else OpenAt(history, lastSeq) && lastSeq < SEQNUM_MAX && expSeq == (lastSeq + 1) % SEQNUM_MAX
    }

    /** All entries but the current one are closed; with the current run taken up to `last` the log
        reads back as `h`. */
    ghost predicate OpenAt(h: seq<nat>, last: nat)
      requires entries.Length == LOG_MAX && idx < LOG_MAX
      reads this, entries
    {
      && 0 < idx == used
      && Starts(entries[idx]) && !Ends(entries[idx]) && Num(entries[idx]) <= last
      && Closed(entries[1..idx])
      && h == Expand(entries[1..idx], 0) + Run(Num(entries[idx]), last)
    }

    constructor ()
      ensures Valid() && fresh(entries) && history == [] && used == 0
    {
      entries := new uint16[LOG_MAX](_ => 0);
      idx, lastSeq, expSeq := 0, 0, 0;
      history, used := [], 0;
    }

    /** `DBG_SEQ_SEQ_INC_UPDATE` */
    method IncUpdate(seqNo: uint16, flags: uint16)
      requires entries.Length == LOG_MAX && idx < LOG_MAX
      requires flags == SEQ_START || flags == SEQ_END
      modifies this`idx, this`used, entries
      ensures idx == (old(idx) + 1) % LOG_MAX && used == old(used) + 1
      ensures entries[..] == old(entries[..])[idx := seqNo % SEQ_START + flags]
    {
      idx := idx + 1;
      idx := idx % LOG_MAX;
      entries[idx] := seqNo % SEQ_START + flags;
      used := used + 1;
    }

    /** All entries are closed and read back as the history. */
    ghost predicate AllClosed()
      requires entries.Length == LOG_MAX && idx < LOG_MAX
      reads this, entries
    {
      idx == used && Closed(entries[1..idx + 1]) && Expand(entries[1..idx + 1], 0) == history
    }

    /** Closes an open run of one number in its own slot. */
    method CloseInPlace()
      requires Valid() && (used < LOG_MAX ==> idx > 0)
      requires Starts(entries[idx]) && !Ends(entries[idx]) && Num(entries[idx]) == lastSeq
      modifies entries
      ensures used < LOG_MAX ==> AllClosed()
    {
      hide Run, Expand, Closed, Starts, Ends, Num;
      AddEnd(entries[idx]);
      ghost var c := if used < LOG_MAX then entries[1..idx] else [];
      entries[idx] := entries[idx] + SEQ_END;
      if used < LOG_MAX {
        ExpandSingle(c, entries[idx]);
        assert entries[1..idx + 1] == c + [entries[idx]];
      }
    }

    /** Closes a longer open run in the next slot. */
    method CloseInNext()
      requires Valid() && (used < LOG_MAX ==> idx > 0)
      requires Starts(entries[idx]) && !Ends(entries[idx])
      modifies this`idx, this`used, entries
      ensures idx < LOG_MAX && used == old(used) + 1
      ensures used < LOG_MAX ==> AllClosed()
    {
      hide Run, Expand, Closed, Starts, Ends, Num;
      ghost var e := entries[idx];
      ghost var c := if used < LOG_MAX then entries[1..idx] else [];
      if used < LOG_MAX { Flags(lastSeq); }
      IncUpdate(lastSeq, SEQ_END);
      if used < LOG_MAX {
        ExpandPair(c, e, entries[idx]);
        assert entries[1..idx + 1] == c + [e, entries[idx]];
      }
    }

    method CloseRun()
      requires Valid() && (used < LOG_MAX ==> idx > 0)
      requires Starts(entries[idx]) && !Ends(entries[idx])
      modifies this`idx, this`used, entries
      ensures idx < LOG_MAX && used == old(used) + if old(Num(entries[idx])) == lastSeq then 0 else 1
      ensures used < LOG_MAX ==> AllClosed()
    {
      if Num(entries[idx]) == lastSeq {
        CloseInPlace();
      } else {
        CloseInNext();
      }
    }

    /** Opens a run in the next slot. */
    method OpenRun(seqNo: uint16)
      requires entries.Length == LOG_MAX && idx < LOG_MAX && seqNo < SEQNUM_MAX
      requires used < LOG_MAX ==> AllClosed()
      modifies this`idx, this`used, entries
      ensures idx < LOG_MAX && used == old(used) + 1
      ensures Starts(entries[idx]) && !Ends(entries[idx]) && Num(entries[idx]) == seqNo
      ensures used < LOG_MAX ==> OpenAt(history + [seqNo], seqNo)
    {
      hide Run, Expand, Closed, Starts, Ends, Num;
      ghost var closed := entries[1..idx + 1];
      Flags(seqNo);
      RunOne(seqNo);
      IncUpdate(seqNo, SEQ_START);
      assert used < LOG_MAX ==> entries[1..idx] == closed;
    }

    /** `dbg_seq_log_seq` for a 12-bit sequence number. */
    method LogSeq(seqNo: uint16)
      requires Valid() && seqNo < SEQNUM_MAX
      modifies this`idx, this`lastSeq, this`expSeq, this`history, this`used, entries
      ensures Valid() && history == old(history) + [seqNo] && old(used) <= used <= old(used) + 2
      ensures old(Continues(history, seqNo)) ==> used == old(used) && entries[..] == old(entries[..])
      ensures used < LOG_MAX ==> Expand(entries[1..idx + 1], lastSeq) == history
    {
      hide Run, Expand, Closed, Starts, Ends, Num, AllClosed, Slots, RunStart, Alone;
      SlotsAppend(history, seqNo);
      NoFlags();
      if Starts(entries[idx]) && !Ends(entries[idx]) {
        RunStartAlone(history);
        if seqNo != expSeq || seqNo == 0 {
          assert used < LOG_MAX ==> idx > 0 by { NoFlags(); }
          CloseRun();
          OpenRun(seqNo);
        } else {
          assert used < LOG_MAX ==> OpenAt(history + [seqNo], seqNo) by {
            NoFlags();
            if used < LOG_MAX { RunGrows(Num(entries[idx]), lastSeq); }
          }
        }
      } else {
        StartsClosed();
        OpenRun(seqNo);
      }
      lastSeq := seqNo;
      expSeq := (seqNo + 1) % SEQNUM_MAX;
      history := history + [seqNo];
      if used < LOG_MAX {
        ReadBack(entries[1..idx], entries[idx], lastSeq);
        assert entries[1..idx + 1] == entries[1..idx] + [entries[idx]];
      }
    }

    /** Without an open run, nothing has been logged yet. */
    lemma StartsClosed()
      requires Valid() && !(Starts(entries[idx]) && !Ends(entries[idx]))
      ensures used < LOG_MAX ==> AllClosed()
    {
    }
  }

  lemma NoFlags()
    ensures !Starts(0)
  {
  }

  /** How an entry built from a number and a flag reads. */
  lemma Flags(n: nat)
    requires n < SEQNUM_MAX
    ensures Starts(n + SEQ_START) && !Ends(n + SEQ_START) && Num(n + SEQ_START) == n
    ensures !Starts(n + SEQ_END) && Ends(n + SEQ_END) && Num(n + SEQ_END) == n
  {
  }

  lemma AddEnd(e: uint16)
    requires Starts(e) && !Ends(e)
    ensures e + SEQ_END < 0x1_0000
    ensures Starts(e + SEQ_END) && Ends(e + SEQ_END) && Num(e + SEQ_END) == Num(e)
  {
  }

  lemma ExpandSingle(c: seq<uint16>, e: uint16)
    requires Closed(c) && Starts(e) && Ends(e)
    ensures Closed(c + [e]) && Expand(c + [e], 0) == Expand(c, 0) + Run(Num(e), Num(e))
  {
    RunOne(Num(e));
    assert [e][1..] == [] && Closed([e]) && Expand([e], 0) == [Num(e)];
    ExpandConcat(c, [e], 0);
  }

  lemma ExpandPair(c: seq<uint16>, e: uint16, f: uint16)
    requires Closed(c) && Starts(e) && !Ends(e) && !Starts(f) && Ends(f)
    ensures Closed(c + [e, f]) && Expand(c + [e, f], 0) == Expand(c, 0) + Run(Num(e), Num(f))
  {
    assert [e, f][2..] == [] && Closed([e, f]) && Expand([e, f], 0) == Run(Num(e), Num(f));
    ExpandConcat(c, [e, f], 0);
  }

  /** Reading back a log whose last entry is an open run. */
  lemma ReadBack(closed: seq<uint16>, e: uint16, last: nat)
    requires Closed(closed) && Starts(e) && !Ends(e)
    ensures Expand(closed + [e], last) == Expand(closed, 0) + Run(Num(e), last)
  {
    ExpandConcat(closed, [e], last);
  }

  /** Any sequence of calls on a fresh log: unless a slot was reused, the log reads back as exactly
      the numbers logged. */
  method LogAll(numbers: seq<uint16>) returns (log: Log)
    requires forall i :: 0 <= i < |numbers| ==> numbers[i] < SEQNUM_MAX
    ensures fresh(log) && log.Valid() && log.history == numbers && log.used <= 2 * |numbers|
    ensures log.used == Slots(numbers)
    ensures Slots(numbers) < LOG_MAX && numbers != [] ==> Expand(log.entries[1..log.idx + 1], log.lastSeq) == numbers
  {
    hide Run, Expand, Closed, Slots, RunStart, Alone, Starts, Ends, Num;
    log := new Log();
    var i := 0;
    while i < |numbers|
      invariant 0 <= i <= |numbers| && fresh(log) && fresh(log.entries) && log.Valid()
      invariant log.history == numbers[..i] && log.used <= 2 * i
      invariant log.used < LOG_MAX && i > 0 ==> Expand(log.entries[1..log.idx + 1], log.lastSeq) == log.history
    {
      log.LogSeq(numbers[i]);
      i := i + 1;
    }
  }
}
