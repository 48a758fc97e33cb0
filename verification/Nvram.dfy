/** The in-place NVRAM text compactor `process_nvram_vars` (src/bcmutils.c). */
module Nvram {

  predicate Plain(c: char) { c != '\r' && c != '\n' && c != '#' }

  /** A line without its carriage returns and without its comment. */
  function Clean(line: seq<char>): (r: seq<char>)
    ensures |r| <= |line|
    ensures forall c :: c in r ==> c in line && c != '\r' && c != '#'
  {
    if line == [] || line[0] == '#' then []
    else if line[0] == '\r' then Clean(line[1..])
    else [line[0]] + Clean(line[1..])
  }

  /** Position of the first newline, or the length of the text. */
  function LineEnd(text: seq<char>): (i: nat)
    ensures i <= |text| && '\n' !in text[..i] && (i < |text| ==> text[i] == '\n')
  {
    if text == [] || text[0] == '\n' then 0 else
      var i := LineEnd(text[1..]);
      assert text[..i + 1] == [text[0]] + text[1..][..i];
      i + 1
  }

  /** The variables of a text: each line is cleaned, the empty ones are dropped, and every one that
      a newline ended is ended by a NUL instead. */
  function Vars(text: seq<char>): (r: seq<char>)
  {
    var i := LineEnd(text);
    var line := Clean(text[..i]);
    if i == |text| then line
    else (if line == [] then [] else line + ['\0']) + Vars(text[i + 1..])
  }

  /** The text read one character at a time, as the loop does: `skip` inside a comment, `blank`
      while the current line has produced nothing. */
  function Scan(text: seq<char>, skip: bool, blank: bool): (r: seq<char>)
    ensures |r| <= |text|
  {
    if text == [] then []
    else
      var c, rest := text[0], text[1..];
      if c == '\r' || (skip && c != '\n') then Scan(rest, skip, blank)
      else if c == '#' then Scan(rest, true, blank)
      else if c == '\n' then (if blank then [] else ['\0']) + Scan(rest, false, true)
      else [c] + Scan(rest, false, false)
  }

  /** One line at a time: the line, its terminator, and the scan of what follows. */
  function ByLine(text: seq<char>, skip: bool, blank: bool): seq<char>
  {
    var i := LineEnd(text);
    var line := if skip then [] else Clean(text[..i]);
    if i == |text| then line
    else line + (if blank && line == [] then [] else ['\0']) + Scan(text[i + 1..], false, true)
  }

  lemma {:induction false} ScanLine(text: seq<char>, skip: bool, blank: bool)
    ensures Scan(text, skip, blank) == ByLine(text, skip, blank)
  {
    hide ByLine, Clean, LineEnd;
    if text == [] {
      NoLine(skip, blank);
    } else if text[0] == '\n' {
      LineBreak(text, skip, blank);
    } else if text[0] == '\r' || skip {
      LineSkip(text, skip, blank);
      ScanLine(text[1..], skip, blank);
    } else if text[0] == '#' {
      LineComment(text, blank);
      ScanLine(text[1..], true, blank);
    } else {
      LineKeep(text, blank);
      ScanLine(text[1..], false, false);
    }
  }

  // One line of the text by the class of its first character.

  lemma NoLine(skip: bool, blank: bool)
    ensures ByLine([], skip, blank) == []
  {
  }

  lemma LineBreak(text: seq<char>, skip: bool, blank: bool)
    requires text != [] && text[0] == '\n'
    ensures ByLine(text, skip, blank) == (if blank then [] else ['\0']) + Scan(text[1..], false, true)
  {
    hide Scan;
    assert LineEnd(text) == 0 && Clean(text[..0]) == [];
  }

  lemma LineSkip(text: seq<char>, skip: bool, blank: bool)
    requires text != [] && text[0] != '\n' && (text[0] == '\r' || skip)
    ensures ByLine(text, skip, blank) == ByLine(text[1..], skip, blank)
  {
    hide Scan, LineEnd, Clean;
    LineTail(text);
    CleanHead(text[..LineEnd(text)]);
  }

  lemma LineComment(text: seq<char>, blank: bool)
    requires text != [] && text[0] == '#'
    ensures ByLine(text, false, blank) == ByLine(text[1..], true, blank)
  {
    hide Scan, LineEnd, Clean;
    LineTail(text);
    CleanHead(text[..LineEnd(text)]);
  }

  lemma LineKeep(text: seq<char>, blank: bool)
    requires text != [] && Plain(text[0])
    ensures ByLine(text, false, blank) == [text[0]] + ByLine(text[1..], false, false)
  {
    hide Scan, LineEnd, Clean;
    LineTail(text);
    CleanHead(text[..LineEnd(text)]);
    var i, rest := LineEnd(text[1..]), text[1..];
    if i < |rest| {
      Regroup([text[0]], Clean(rest[..i]), ['\0'], Scan(rest[i + 1..], false, true));
    }
  }

  lemma CleanHead(line: seq<char>)
    requires line != []
    ensures line[0] == '#' ==> Clean(line) == []
    ensures line[0] == '\r' ==> Clean(line) == Clean(line[1..])
    ensures line[0] != '#' && line[0] != '\r' ==> Clean(line) == [line[0]] + Clean(line[1..])
  {
  }

  lemma LineTail(text: seq<char>)
    requires text != [] && text[0] != '\n'
    ensures var i := LineEnd(text[1..]);
            && LineEnd(text) == i + 1
            && text[..i + 1] == [text[0]] + text[1..][..i]
            && text[..i + 1][1..] == text[1..][..i]
            && (i < |text[1..]| ==> text[i + 2..] == text[1..][i + 1..])
  {
  }

  lemma Regroup(a: seq<char>, b: seq<char>, c: seq<char>, d: seq<char>)
    ensures a + (b + c + d) == a + b + c + d
  {
  }

  /** The character machine computes the line-by-line filter. */
  lemma {:induction false} ScanIsVars(text: seq<char>)
    ensures Scan(text, false, true) == Vars(text)
    decreases |text|
  {
    hide Scan, Clean, LineEnd;
    var i := LineEnd(text);
    ScanLine(text, false, true);
    if i == |text| {
    } else {
      ScanIsVars(text[i + 1..]);
    }
  }

  /** The length the routine returns: rounded up to a multiple of 4 if that still fits. */
  function PaddedLength(n: nat, len: nat): (r: nat)
    requires n <= len
    ensures n <= r <= len
  {
    if n % 4 != 0 && n + (4 - n % 4) <= len then n + (4 - n % 4) else n
  }

  /** It is the next multiple of 4 if there is room for one, and otherwise the length itself. */
  lemma PaddedLengthIsNext(n: nat, len: nat)
    requires n <= len
    ensures var r := PaddedLength(n, len);
            && r - n < 4
            && if exists m :: n <= m <= len && m % 4 == 0 then r % 4 == 0 else r == n
  {
  }

  function Zeros(n: nat): (z: seq<char>)
    ensures |z| == n && forall i :: 0 <= i < n ==> z[i] == '\0'
  {
    seq(n, i => '\0')
  }

  /** The whole buffer after the call. */
  function Result(text: seq<char>): (r: seq<char>)
    ensures |r| == |text|
  {
    ScanIsVars(text);
    Vars(text) + Zeros(|text| - |Vars(text)|)
  }

  function ResultLength(text: seq<char>): (r: nat)
    ensures |Vars(text)| <= r <= |text|
  {
    ScanIsVars(text);
    PaddedLength(|Vars(text)|, |text|)
  }

  lemma Append(a: seq<char>, c: char, d: seq<char>)
    ensures a + ([c] + d) == (a + [c]) + d
  {
  }

  lemma ScanNothing(skip: bool, blank: bool)
    ensures Scan([], skip, blank) == []
  {
  }

  /** One character, one case of the loop each. */
  lemma ScanHead(text: seq<char>, skip: bool, blank: bool)
    requires text != []
    ensures var c, rest := text[0], text[1..];
            && (c == '\r' || (skip && c != '\n') ==> Scan(text, skip, blank) == Scan(rest, skip, blank))
            && (c == '#' && !skip ==> Scan(text, skip, blank) == Scan(rest, true, blank))
            && (c == '\n' && blank ==> Scan(text, skip, blank) == Scan(rest, false, true))
            && (c == '\n' && !blank ==> Scan(text, skip, blank) == ['\0'] + Scan(rest, false, true))
            && (Plain(c) && !skip ==> Scan(text, skip, blank) == [c] + Scan(rest, false, false))
  {
    assert [] + Scan(text[1..], false, true) == Scan(text[1..], false, true);
  }

  /** The copying loop. The write position never passes the read position, so every character is
      read before it can be overwritten. */
  method Compact(varbuf: array<char>, len: nat) returns (dp: nat)
    requires len <= varbuf.Length
    modifies varbuf
    ensures dp <= len
    ensures varbuf[..dp] == Scan(old(varbuf[..len]), false, true)
    ensures varbuf[len..] == old(varbuf[len..])
  {
    hide Scan;
    ghost var text := varbuf[..len];
    ghost var all := varbuf[..];
    var n: nat, findNewline, column: nat := 0, false, 0;
    dp := 0;
    while n < len
      invariant dp <= n <= len
      invariant forall i :: n <= i < varbuf.Length ==> varbuf[i] == all[i]
      invariant Scan(text, false, true) == varbuf[..dp] + Scan(text[n..], findNewline, column == 0)
    {
      var c := varbuf[n];
      ghost var before, rest := varbuf[..dp], text[n + 1..];
      assert c == all[n] == text[n..][0] && text[n..][1..] == rest;
      ScanHead(text[n..], findNewline, column == 0);
      if c == '\r' || (findNewline && c != '\n') {
        n := n + 1;
        continue;
      }
      findNewline := false;
      if c == '#' {
        findNewline := true;
      } else if c == '\n' {
        if column != 0 {
          varbuf[dp] := '\0';
          assert varbuf[..dp + 1] == before + ['\0'];
          Append(before, '\0', Scan(rest, false, true));
          dp := dp + 1;
          column := 0;
        }
      } else {
        varbuf[dp] := c;
        assert varbuf[..dp + 1] == before + [c];
        Append(before, c, Scan(rest, false, false));
        dp := dp + 1;
        column := column + 1;
      }
      n := n + 1;
    }
    assert text[n..] == [];
    ScanNothing(findNewline, column == 0);
  }

  method ZeroFill(varbuf: array<char>, from: nat, n: nat)
    requires from <= n <= varbuf.Length
    modifies varbuf
    ensures varbuf[..n] == old(varbuf[..from]) + Zeros(n - from)
    ensures varbuf[n..] == old(varbuf[n..])
  {
    var dp := from;
    while dp < n
      invariant from <= dp <= n
      invariant forall i :: from <= i < dp ==> varbuf[i] == '\0'
      invariant forall i :: 0 <= i < varbuf.Length && !(from <= i < dp) ==> varbuf[i] == old(varbuf[i])
    {
      varbuf[dp] := '\0';
      dp := dp + 1;
    }
  }

  method ProcessNvramVars(varbuf: array<char>, len: nat) returns (bufLen: nat)
    requires len <= varbuf.Length
    modifies varbuf
    ensures varbuf[..len] == Result(old(varbuf[..len]))
    ensures varbuf[len..] == old(varbuf[len..])
    ensures bufLen == ResultLength(old(varbuf[..len]))
    ensures bufLen < |Vars(old(varbuf[..len]))| + 4
    ensures if exists m :: |Vars(old(varbuf[..len]))| <= m <= len && m % 4 == 0 then bufLen % 4 == 0
            else bufLen == |Vars(old(varbuf[..len]))|
  {
    hide Vars, Scan;
    ScanIsVars(varbuf[..len]);
    var dp := Compact(varbuf, len);
    bufLen := dp;
    if bufLen % 4 != 0 {
      var pad := 4 - bufLen % 4;
      if bufLen + pad <= len {
        bufLen := bufLen + pad;
      }
    }
    PaddedLengthIsNext(dp, len);
    ZeroFill(varbuf, dp, len);
  }

  /** The filter leaves no carriage return, newline or comment mark. */
  lemma {:induction false} VarsArePlain(text: seq<char>)
    ensures forall c :: c in Vars(text) ==> Plain(c)
    decreases |text|
  {
    var i := LineEnd(text);
    if i == |text| {
    } else {
      VarsArePlain(text[i + 1..]);
    }
  }

  lemma {:induction false} CleanPlain(line: seq<char>)
    requires forall c :: c in line ==> Plain(c)
    ensures Clean(line) == line
  {
    if line == [] {
    } else {
      assert forall c :: c in line[1..] ==> c in line;
      assert line[0] in line;
      CleanPlain(line[1..]);
    }
  }

  /** A text of plain characters is its own filter. */
  lemma PlainIsVars(text: seq<char>)
    requires forall c :: c in text ==> Plain(c)
    ensures Vars(text) == text
  {
    CleanPlain(text);
    var i := LineEnd(text);
    assert '\n' !in text && i == |text|;
    assert text[..i] == text;
  }

  lemma PrefixIsPlain(v: seq<char>, n: nat, r: nat)
    requires r <= |v| + n && forall c :: c in v ==> Plain(c)
    ensures forall c :: c in (v + Zeros(n))[..r] ==> Plain(c)
  {
    hide Zeros;
  }

  /** Running the routine again on the length it returned changes neither bytes nor length. */
  lemma RunningTwice(text: seq<char>)
    ensures var again := Result(text)[..ResultLength(text)];
            Result(again) == again && ResultLength(again) == |again|
  {
    hide Vars, Zeros;
    var again := Result(text)[..ResultLength(text)];
    ScanIsVars(text);
    VarsArePlain(text);
    PrefixIsPlain(Vars(text), |text| - |Vars(text)|, ResultLength(text));
    PlainIsVars(again);
    assert Zeros(0) == [];
  }

  // ----- the filter by positions -----

  /** A comment mark stands before position `i` on its line. */
  predicate Commented(text: seq<char>, i: nat)
    requires i <= |text|
  {
    exists j :: 0 <= j < i && text[j] == '#' && '\n' !in text[j..i]
  }

  predicate KeptChar(text: seq<char>, i: nat)
    requires i < |text|
  {
    Plain(text[i]) && !Commented(text, i)
  }

  /** A character before position `i` on its line is kept. */
  predicate Started(text: seq<char>, i: nat)
    requires i <= |text|
  {
    exists j: nat :: j < i && KeptChar(text, j) && '\n' !in text[j..i]
  }

  /** Position `i` puts a character into the result: a plain one outside comments, or the newline of a line
      that keeps a character. */
  predicate Kept(text: seq<char>, i: nat)
    requires i < |text|
  {
    if text[i] == '\n' then Started(text, i) else KeptChar(text, i)
  }

  /** The kept positions among the first `m`, in order. */
  function KeptBelow(text: seq<char>, m: nat): (p: seq<nat>)
    requires m <= |text|
    ensures forall k :: 0 <= k < |p| ==> p[k] < m && Kept(text, p[k])
    ensures forall i, k :: 0 <= i < k < |p| ==> p[i] < p[k]
    ensures forall i: nat :: i < m && Kept(text, i) ==> i in p
  {
    if m == 0 then [] else KeptBelow(text, m - 1) + (if Kept(text, m - 1) then [m - 1] else [])
  }

  function KeptPositions(text: seq<char>): (p: seq<nat>)
    ensures forall k :: 0 <= k < |p| ==> p[k] < |text|
  {
    KeptBelow(text, |text|)
  }

  /** What a position puts there. */
  function Out(c: char): char { if c == '\n' then '\0' else c }

  function Outs(text: seq<char>, p: seq<nat>): (r: seq<char>)
    requires forall k :: 0 <= k < |p| ==> p[k] < |text|
    ensures |r| == |p|
  {
    seq(|p|, k requires 0 <= k < |p| => Out(text[p[k]]))
  }

  lemma CommentedNext(text: seq<char>, m: nat)
    requires m < |text|
    ensures Commented(text, m + 1) <==> text[m] != '\n' && (text[m] == '#' || Commented(text, m))
  {
    forall j | 0 <= j <= m ensures '\n' in text[j..m + 1] <==> '\n' in text[j..m] || text[m] == '\n' {
      assert text[j..m + 1] == text[j..m] + [text[m]];
    }
    assert text[m..m] == [];
  }

  lemma StartedNext(text: seq<char>, m: nat)
    requires m < |text|
    ensures Started(text, m + 1) <==> text[m] != '\n' && (KeptChar(text, m) || Started(text, m))
  {
    hide KeptChar;
    forall j | 0 <= j <= m ensures '\n' in text[j..m + 1] <==> '\n' in text[j..m] || text[m] == '\n' {
      assert text[j..m + 1] == text[j..m] + [text[m]];
    }
    assert text[m..m] == [];
  }

  /** The character machine after `m` characters: what the kept positions put into the result, and the rest of
      the text in the state that the line so far determines. */
  lemma {:induction false} ScanAfter(text: seq<char>, m: nat)
    requires m <= |text|
    ensures Scan(text, false, true) ==
              Outs(text, KeptBelow(text, m)) + Scan(text[m..], Commented(text, m), !Started(text, m))
  {
    hide Scan, Commented, Started, Kept, Out;
    if m == 0 {
      NothingBefore(text);
      assert text[0..] == text && Outs(text, KeptBelow(text, 0)) == [];
    } else {
      ScanAfter(text, m - 1);
      ScanOne(text, m - 1);
      var one := if Kept(text, m - 1) then [Out(text[m - 1])] else [];
      assert Outs(text, KeptBelow(text, m)) == Outs(text, KeptBelow(text, m - 1)) + one;
      Prepend(Outs(text, KeptBelow(text, m - 1)), one, Scan(text[m..], Commented(text, m), !Started(text, m)));
    }
  }

  lemma Prepend(a: seq<char>, b: seq<char>, c: seq<char>)
    ensures a + (b + c) == (a + b) + c
  {
  }

  lemma NothingBefore(text: seq<char>)
    ensures !Commented(text, 0) && !Started(text, 0)
  {
  }

  /** One character of the machine in the state that the line so far determines. */
  lemma ScanOne(text: seq<char>, i: nat)
    requires i < |text|
    ensures Scan(text[i..], Commented(text, i), !Started(text, i)) ==
              (if Kept(text, i) then [Out(text[i])] else []) +
              Scan(text[i + 1..], Commented(text, i + 1), !Started(text, i + 1))
  {
    hide Commented, Started;
    CommentedNext(text, i);
    StartedNext(text, i);
    assert text[i..][0] == text[i] && text[i..][1..] == text[i + 1..];
  }

  /** The filter keeps exactly the kept positions. */
  lemma VarsAreKept(text: seq<char>)
    ensures Vars(text) == Outs(text, KeptPositions(text))
  {
    hide Vars, KeptBelow, Commented, Started;
    ScanIsVars(text);
    ScanAfter(text, |text|);
  }

  // ----- the closing NULs -----

  /** The comment's promise: the bytes returned end in two NULs. */
  predicate ClosedByTwo(text: seq<char>)
  {
    var r := ResultLength(text);
    r >= 2 && Result(text)[r - 1] == '\0' && Result(text)[r - 2] == '\0'
  }

  /** The `k`-th kept position from the end exists and puts a NUL there. */
  predicate EndsNul(text: seq<char>, k: nat)
  {
    var p := KeptPositions(text);
    1 <= k <= |p| && Out(text[p[|p| - k]]) == '\0'
  }

  /** When the promise is kept, by the number of characters and lines kept: with two or three bytes of padding
      always; with one, exactly if the last character kept becomes a NUL; with none, exactly if the last two
      do. */
  lemma ClosingNuls(text: seq<char>)
    ensures var n := |KeptPositions(text)|;
            n <= |text| &&
            (ClosedByTwo(text) <==>
             if n % 4 == 0 || n + (4 - n % 4) > |text| then EndsNul(text, 1) && EndsNul(text, 2)
             else n % 4 == 3 ==> EndsNul(text, 1))
  {
    hide Vars, KeptPositions, EndsNul, ClosedByTwo;
    ScanIsVars(text);
    VarsAreKept(text);
    EndsNulInVars(text, 1);
    EndsNulInVars(text, 2);
    ClosedInVars(text);
    PaddedEnd(Vars(text), |text|);
  }

  lemma EndsNulInVars(text: seq<char>, k: nat)
    ensures var v := Vars(text); EndsNul(text, k) <==> 1 <= k <= |v| && v[|v| - k] == '\0'
  {
    hide Vars, KeptPositions, Out;
    VarsAreKept(text);
  }

  lemma ClosedInVars(text: seq<char>)
    requires |Vars(text)| <= |text|
    ensures ClosedByTwo(text) <==> ClosedPadded(Vars(text), |text|)
  {
    hide Vars, PaddedLength, Zeros;
  }

  predicate ClosedPadded(v: seq<char>, len: nat)
    requires |v| <= len
  {
    var r, b := PaddedLength(|v|, len), v + Zeros(len - |v|);
    r >= 2 && b[r - 1] == '\0' && b[r - 2] == '\0'
  }

  lemma PaddedEnd(v: seq<char>, len: nat)
    requires |v| <= len
    ensures var n := |v|;
            ClosedPadded(v, len) <==>
            if n % 4 == 0 || n + (4 - n % 4) > len then n >= 2 && v[n - 1] == '\0' && v[n - 2] == '\0'
            else n % 4 == 3 ==> v[n - 1] == '\0'
  {
  }

  /** Two kept positions in a row are never both newlines. */
  lemma NoBlankLine(text: seq<char>, k: nat)
    requires k + 1 < |KeptPositions(text)|
    ensures var p := KeptPositions(text); !(text[p[k]] == '\n' == text[p[k + 1]])
  {
    hide KeptChar;
    var p := KeptPositions(text);
    if text[p[k]] == '\n' == text[p[k + 1]] {
      var j: nat :| j < p[k + 1] && KeptChar(text, j) && '\n' !in text[j..p[k + 1]];
      if j > p[k] { KeptCharIsKept(text, j); }
    }
  }

  lemma KeptCharIsKept(text: seq<char>, j: nat)
    requires j < |text| && KeptChar(text, j)
    ensures Kept(text, j)
  {
  }

  /** For a text without NULs the promise is kept exactly if the length is padded, and if by one byte only,
      the last character kept is a newline. */
  lemma ClosingNulsOfPlainText(text: seq<char>)
    requires '\0' !in text
    ensures var p := KeptPositions(text);
            var n := |p|;
            ClosedByTwo(text) <==>
              n % 4 != 0 && n + (4 - n % 4) <= |text| && (n % 4 == 3 ==> text[p[n - 1]] == '\n')
  {
    hide ClosedByTwo, KeptPositions;
    var p := KeptPositions(text);
    ClosingNuls(text);
    assert forall i: nat :: i < |text| ==> (Out(text[i]) == '\0' <==> text[i] == '\n') by {
      assert forall i: nat :: i < |text| ==> text[i] in text;
    }
    if |p| >= 2 { NoBlankLine(text, |p| - 2); }
  }

  /** The routine's comment promises two closing NULs. A text that fills the buffer to a multiple
      of four without a final newline gets none. */
  lemma NoClosingNul()
    ensures Result("ab=c") == "ab=c" && ResultLength("ab=c") == 4 && !ClosedByTwo("ab=c")
  {
    PlainIsVars("ab=c");
    assert Zeros(0) == [];
  }
}
