/** `grep` (syscalls/ece391grep.c): a search through a 1024-byte buffer that is refilled and
    shifted under the lines it holds. */
module Grep {
  import opened Bytes
  import opened FileSystem
  import opened Descriptors
  import opened Messages

  const BUFSIZE := 1024
  const COLON: byte := 58

  // ----- what the search means

  /** `s` occurs in `line`. */
  ghost predicate Found(line: seq<byte>, s: seq<byte>) {
    s != [] && exists i :: OccursAt(line, s, i)
  }

  ghost predicate OccursAt(line: seq<byte>, s: seq<byte>, i: int) {
    0 <= i && i + |s| <= |line| && line[i..i + |s|] == s
  }

  /** The text the buffer search treats as the first line of `f`: a line, or the first 1024
      bytes of a line that is longer. */
  function Head(f: seq<byte>): seq<byte> {
    f[..Min(IndexOf(f, NEWLINE), BUFSIZE)]
  }

  /** What is left of `f` after that; the newline goes with a line that fits. */
  function Tail(f: seq<byte>): (r: seq<byte>)
    ensures f != [] ==> |r| < |f|
  {
    var k := IndexOf(f, NEWLINE);
    if k < BUFSIZE && k < |f| then f[k + 1..] else f[Min(k, BUFSIZE)..]
  }

  function Segments(f: seq<byte>): seq<seq<byte>>
    decreases |f|
  {
    if f == [] then [] else [Head(f)] + Segments(Tail(f))
  }

  ghost function Matching(lines: seq<seq<byte>>, s: seq<byte>): seq<seq<byte>> {
    if lines == [] then []
    else (if Found(lines[0], s) then [lines[0]] else []) + Matching(lines[1..], s)
  }

  function Record(fname: seq<byte>, line: seq<byte>): seq<byte> {
    fname + [COLON] + line + [NEWLINE]
  }

  function Records(fname: seq<byte>, lines: seq<seq<byte>>): seq<byte> {
    if lines == [] then [] else Record(fname, lines[0]) + Records(fname, lines[1..])
  }

  /** A text that fits on a line of output. */
  ghost predicate OneLine(line: seq<byte>) {
    NulFree(line) && NEWLINE !in line && |line| <= BUFSIZE
  }

  /** Output that is made of records under one name, whatever their lines. */
  ghost predicate IsRecords(fname: seq<byte>, part: seq<byte>) {
    exists lines :: AllOneLine(lines) && part == Records(fname, lines)
  }

  ghost predicate AllOneLine(lines: seq<seq<byte>>) {
    forall k :: 0 <= k < |lines| ==> OneLine(lines[k])
  }

  lemma NoRecords(fname: seq<byte>)
    ensures IsRecords(fname, [])
  {
    assert AllOneLine([]) && Records(fname, []) == [];
  }

  lemma OneMoreRecord(fname: seq<byte>, part: seq<byte>, line: seq<byte>)
    requires IsRecords(fname, part) && OneLine(line)
    ensures IsRecords(fname, part + Record(fname, line))
  {
    hide Record;
    hide OneLine;
    var lines :| AllOneLine(lines) && part == Records(fname, lines);
    RecordsConcat(fname, lines, [line]);
    assert Records(fname, [line]) == Record(fname, line) by { assert [line][1..] == []; }
    assert AllOneLine(lines + [line]);
  }

  lemma MoreRecords(fname: seq<byte>, a: seq<byte>, b: seq<byte>)
    requires IsRecords(fname, a) && IsRecords(fname, b)
    ensures IsRecords(fname, a + b)
  {
    hide OneLine;
    var la :| AllOneLine(la) && a == Records(fname, la);
    var lb :| AllOneLine(lb) && b == Records(fname, lb);
    RecordsConcat(fname, la, lb);
    assert AllOneLine(la + lb);
  }

  lemma {:induction false} RecordsConcat(fname: seq<byte>, a: seq<seq<byte>>, b: seq<seq<byte>>)
    ensures Records(fname, a + b) == Records(fname, a) + Records(fname, b)
  {
    hide Record;
    if a == [] {
      assert a + b == b;
    } else {
      assert (a + b)[1..] == a[1..] + b;
      RecordsConcat(fname, a[1..], b);
    }
  }

  /** Everything `grep` prints for the text `f`. */
  ghost function Report(fname: seq<byte>, f: seq<byte>, s: seq<byte>): seq<byte> {
    Records(fname, Matching(Segments(f), s))
  }

  lemma ReportStep(fname: seq<byte>, f: seq<byte>, s: seq<byte>)
    requires f != []
    ensures Report(fname, f, s)
      == (if Found(Head(f), s) then Record(fname, Head(f)) else []) + Report(fname, Tail(f), s)
  {
    hide Head;
    hide Tail;
    hide Found;
    var rest := Matching(Segments(Tail(f)), s);
    assert Segments(f)[1..] == Segments(Tail(f));
    if Found(Head(f), s) {
      assert Matching(Segments(f), s)[1..] == rest;
    } else {
      assert Matching(Segments(f), s) == rest;
    }
  }

  // ----- segments against lines

  lemma MatchingSome(line: seq<byte>, lines: seq<seq<byte>>, s: seq<byte>)
    ensures Matching([line] + lines, s) == (if Found(line, s) then [line] else []) + Matching(lines, s)
  {
    assert ([line] + lines)[1..] == lines;
  }

  lemma {:induction false} MatchingMembers(lines: seq<seq<byte>>, s: seq<byte>, line: seq<byte>)
    ensures line in Matching(lines, s) <==> line in lines && Found(line, s)
  {
    hide Found;
    if lines != [] {
      MatchingMembers(lines[1..], s, line);
      assert lines == [lines[0]] + lines[1..];
    }
  }

  lemma {:induction false} SegmentsFit(f: seq<byte>)
    ensures forall seg :: seg in Segments(f) ==> |seg| <= BUFSIZE
    decreases |f|
  {
    if f != [] {
      SegmentsFit(Tail(f));
    }
  }

  /** `grep` prints exactly the lines that contain the pattern, each once and in order, if and
      only if no line that contains it is longer than the buffer. */
  lemma PrintsMatchingLines(f: seq<byte>, s: seq<byte>)
    ensures Matching(Segments(f), s) == Matching(Lines(f), s)
       <==> forall line :: line in Lines(f) && Found(line, s) ==> |line| <= BUFSIZE
  {
    hide Found;
    if forall line :: line in Lines(f) && Found(line, s) ==> |line| <= BUFSIZE {
      ShortMatches(f, s);
    } else {
      var line :| line in Lines(f) && Found(line, s) && |line| > BUFSIZE;
      MatchingMembers(Lines(f), s, line);
      MatchingMembers(Segments(f), s, line);
      SegmentsFit(f);
    }
  }

  /** What follows the first line. */
  function AfterLine(f: seq<byte>): seq<byte> {
    var k := IndexOf(f, NEWLINE);
    if k < |f| then f[k + 1..] else []
  }

  function FirstLine(f: seq<byte>): seq<byte> {
    f[..IndexOf(f, NEWLINE)]
  }

  lemma LinesStep(f: seq<byte>, s: seq<byte>)
    requires f != []
    ensures Lines(f) == [FirstLine(f)] + Lines(AfterLine(f))
    ensures Matching(Lines(f), s) == (if Found(FirstLine(f), s) then [FirstLine(f)] else []) + Matching(Lines(AfterLine(f)), s)
    ensures Matching(Segments(f), s) == (if Found(Head(f), s) then [Head(f)] else []) + Matching(Segments(Tail(f)), s)
    ensures |FirstLine(f)| < BUFSIZE ==> Head(f) == FirstLine(f) && Tail(f) == AfterLine(f)
  {
    hide Found;
    MatchingSome(FirstLine(f), Lines(AfterLine(f)), s);
    MatchingSome(Head(f), Segments(Tail(f)), s);
  }

  lemma {:induction false} ShortMatches(f: seq<byte>, s: seq<byte>)
    requires forall line :: line in Lines(f) && Found(line, s) ==> |line| <= BUFSIZE
    ensures Matching(Segments(f), s) == Matching(Lines(f), s)
    decreases |f|
  {
    hide Found;
    hide Lines;
    hide Segments;
    hide Matching;
    hide FirstLine;
    hide AfterLine;
    hide Head;
    hide IndexOf;
    if f == [] {
      NoLines();
    } else {
      LinesStep(f, s);
      assert forall line :: line in Lines(AfterLine(f)) ==> line in Lines(f);
      if |FirstLine(f)| < BUFSIZE {
        ShortMatches(AfterLine(f), s);
      } else {
        assert FirstLine(f) in Lines(f);
        LongLine(f, s);
        ShortMatches(Tail(f), s);
      }
    }
  }

  lemma NoLines()
    ensures Segments([]) == Lines([]) == []
  {
  }

  /** A line of 1024 bytes or more is cut; what remains of it is the first line of the rest. */
  lemma LongLine(f: seq<byte>, s: seq<byte>)
    requires |FirstLine(f)| >= BUFSIZE
    requires Found(FirstLine(f), s) ==> |FirstLine(f)| <= BUFSIZE
    ensures Found(Head(f), s) <==> Found(FirstLine(f), s)
    ensures Found(Head(f), s) ==> Head(f) == FirstLine(f)
    ensures Matching(Lines(Tail(f)), s) == Matching(Lines(AfterLine(f)), s)
    ensures forall line :: line in Lines(Tail(f)) && Found(line, s) ==> line in Lines(AfterLine(f))
  {
    hide Found;
    hide Lines;
    hide Matching;
    hide IndexOf;
    var line := FirstLine(f);
    NotInPart(line, 0, BUFSIZE, s);
    NotInPart(line, BUFSIZE, |line|, s);
    assert line[0..BUFSIZE] == Head(f);
    if |f| == BUFSIZE {
      NoLines();
    } else {
      CutLine(f);
      LinesStep(Tail(f), s);
      NothingInEmpty(s);
    }
  }

  lemma CutLine(f: seq<byte>)
    requires BUFSIZE <= |FirstLine(f)| && BUFSIZE < |f|
    ensures FirstLine(Tail(f)) == FirstLine(f)[BUFSIZE..|FirstLine(f)|]
    ensures AfterLine(Tail(f)) == AfterLine(f) && Tail(f) != []
  {
    IndexOfIs(f[BUFSIZE..], NEWLINE, IndexOf(f, NEWLINE) - BUFSIZE);
  }

  lemma NothingInEmpty(s: seq<byte>)
    ensures !Found([], s)
  {
  }

  lemma NotInPart(line: seq<byte>, a: nat, b: nat, s: seq<byte>)
    requires a <= b <= |line|
    ensures Found(line[a..b], s) ==> Found(line, s)
  {
    if Found(line[a..b], s) {
      var i :| OccursAt(line[a..b], s, i);
      assert forall k :: 0 <= k < |s| ==> s[k] == line[a..b][i + k] == line[a + i + k];
      assert line[a + i..a + i + |s|] == s;
      assert OccursAt(line, s, a + i);
    }
  }

  // ----- the code

  /** `ece391_strncmp(data + check, s, strlen(s))`, where there is a NUL at `end`. */
  method Strncmp(data: array<byte>, check: nat, ghost end: nat, s: seq<byte>) returns (r: int)
    requires check <= end < data.Length && data[end] == NUL
    requires NulFree(s)
    ensures r == 0 <==> check + |s| <= end && data[check..check + |s|] == s
  {
    if |s| == 0 {
      return 0;
    }
    var i := 0;
    while check + i < data.Length && data[check + i] == s[i]
      invariant 0 <= i < |s| && check + i <= end
      invariant forall k :: 0 <= k < i ==> data[check + k] == s[k]
    {
      assert s[i] in s;
      i := i + 1;
      if i == |s| {
        return 0;
      }
    }
    assert check + i < end ==> data[check..check + i + 1][i] != s[i];
    return data[check + i] as int - s[i] as int;
  }

  lemma Within(data: array<byte>, a: nat, b: nat, i: nat, j: nat)
    requires a <= i <= j <= b <= data.Length
    ensures data[a..b][i - a..j - a] == data[i..j]
  {
    forall k | 0 <= k < j - i ensures data[a..b][i - a..j - a][k] == data[i..j][k] {
      assert data[a..b][i - a + k] == data[i + k];
    }
  }

  /** What `fdputs` prints of a line that ends at `end`: it stops at the first NUL. */
  lemma TextAt(data: array<byte>, start: nat, end: nat)
    requires start <= end < data.Length && data[end] == NUL
    ensures IndexOf(data[start..], NUL) < |data[start..]| && CStr(data[start..]) == CStr(data[start..end])
  {
    var line, m := data[start..end], IndexOf(data[start..end], NUL);
    assert forall k :: 0 <= k < end - start ==> data[start..][k] == line[k];
    IndexOfIs(data[start..], NUL, m);
    assert data[start..][..m] == line[..m];
  }

  /** Does the code take this line? With an empty pattern it takes lines that hold a NUL. */
  ghost predicate Selected(line: seq<byte>, s: seq<byte>) {
    Found(line, s) || (s == [] && NUL in line)
  }

  /** Does the code take the line it has just terminated at `end`? */
  method SearchLine(data: array<byte>, start: nat, end: nat, s: seq<byte>) returns (found: bool)
    requires start <= end < data.Length && data[end] == NUL
    requires NulFree(s)
    ensures found <==> Selected(data[start..end], s)
  {
    ghost var line := data[start..end];
    var first := if s == [] then NUL else s[0];
    var check := start;
    while check < end
      invariant start <= check <= end
      invariant forall i :: 0 <= i < check - start ==> !OccursAt(line, s, i) || (s == [] && line[i] != NUL)
    {
      assert data[check] == line[check - start];
      if first == data[check] {
        var r := Strncmp(data, check, end, s);
        if check + |s| <= end { Within(data, start, end, check, check + |s|); }
        if r == 0 {
          assert OccursAt(line, s, check - start);
          return true;
        }
      }
      check := check + 1;
    }
    return false;
  }

  /** The first `i + 1` bytes are those from `from` on, all but the last no NULs, and the others
      are as before. */
  ghost predicate Shifting(before: seq<byte>, now: seq<byte>, from: nat, i: nat) {
    && |now| == |before| && from + i < |before|
    && (forall k {:trigger now[k]} :: 0 <= k < |now| ==> now[k] == before[if k <= i then from + k else k])
    && (forall k :: 0 <= k < i ==> now[k] != NUL)
  }

  lemma ShiftStart(before: seq<byte>, from: nat)
    requires from < |before|
    ensures Shifting(before, before[0 := before[from]], from, 0)
  {
  }

  lemma ShiftStep(before: seq<byte>, now: seq<byte>, from: nat, i: nat, end: nat)
    requires from > 0 && Shifting(before, now, from, i) && now[i] != NUL
    requires from + i <= end < |before| && before[end] == NUL
    ensures from + i + 1 <= end && Shifting(before, now[i + 1 := now[from + i + 1]], from, i + 1)
  {
  }

  lemma Shifted(before: seq<byte>, now: seq<byte>, from: nat, i: nat, end: nat)
    requires Shifting(before, now, from, i) && now[i] == NUL && from + i <= end < |before|
    ensures IndexOf(before[from..end], NUL) == i && now[..i] == before[from..end][..i]
    ensures forall k :: i < k < |now| ==> now[k] == before[k]
  {
    var line := before[from..end];
    forall k | 0 <= k < i ensures line[k] == now[k] {
      assert now[k] == before[from + k];
    }
    assert now[i] == before[from + i];
    IndexOfIs(line, NUL, i);
  }

  /** `ece391_strcpy(data, data + from)`, where there is a NUL at `end`: it copies up to the first
      NUL, and that one. */
  method ShiftDown(data: array<byte>, from: nat, ghost end: nat)
    requires 0 < from <= end < data.Length && data[end] == NUL
    modifies data
    ensures var line := old(data[from..end]);
      var m := IndexOf(line, NUL);
      && data[..m] == line[..m] && data[m] == NUL
      && forall k :: m < k < data.Length ==> data[k] == old(data[k])
  {
    hide Shifting;
    hide IndexOf;
    ghost var before := data[..];
    ShiftStart(before, from);
    var i := 0;
    data[0] := data[from];
    while data[i] != NUL
      invariant from + i <= end && Shifting(before, data[..], from, i)
      decreases end - i
    {
      ShiftStep(before, data[..], from, i, end);
      data[i + 1] := data[from + i + 1];
      i := i + 1;
    }
    Shifted(before, data[..], from, i, end);
    assert before[from..end] == old(data[from..end]);
  }

  method FindLineEnd(data: array<byte>, start: nat, last: nat) returns (end: nat)
    requires start <= last < data.Length
    ensures start <= end <= last
    ensures forall k :: start <= k < end ==> data[k] != NEWLINE
    ensures end < last ==> data[end] == NEWLINE
  {
    end := start;
    while end < last && data[end] != NEWLINE
      invariant start <= end <= last
      invariant forall k :: start <= k < end ==> data[k] != NEWLINE
    {
      end := end + 1;
    }
  }

  lemma RecordParts(before: seq<byte>, fname: seq<byte>, line: seq<byte>)
    ensures before + fname + [COLON] + line + [NEWLINE] == before + Record(fname, line)
    ensures NulFree([COLON]) && NulFree([NEWLINE])
  {
  }

  /** Print the line terminated at `end`, as far as it can be printed, if the code takes it. */
  method PrintIfFound(p: Process, s: seq<byte>, fname: seq<byte>, data: array<byte>, start: nat, end: nat)
    requires p.Valid() && NulFree(s) && NulFree(fname)
    requires start <= end < data.Length && data[end] == NUL
    modifies p`out
    ensures p.out == old(p.out) + if Selected(data[start..end], s) then Record(fname, CStr(data[start..end])) else []
  {
    hide Selected;
    hide WellFormed;
    hide TableOk;
    hide CStr;
    hide NulFree;
    hide Record;
    var found := SearchLine(data, start, end, s);
    if found {
      RecordParts(p.out, fname, CStr(data[start..end]));
      TextAt(data, start, end);
      p.Say(fname);
      p.Say([COLON]);
      p.Puts(data[start..]);
      p.Say([NEWLINE]);
    }
  }

  /** One pass of the inner loop over a freshly filled buffer. `rest` is what the file still
      holds; the buffer is full unless the file is exhausted, and `cnt == 0` means it is. Whatever
      the buffer holds, records are printed; without NULs they are the right ones. */
  method SearchBuffer(p: Process, s: seq<byte>, fname: seq<byte>, data: array<byte>, filled: nat, cnt: nat,
                      ghost rest: seq<byte>) returns (last: nat, ghost part: seq<byte>)
    requires p.Valid() && NulFree(s) && NulFree(fname)
    requires data.Length == BUFSIZE + 1 && data[BUFSIZE] != NEWLINE
    requires filled <= BUFSIZE
    requires rest == [] || (filled == BUFSIZE && cnt > 0)
    modifies data, p`out
    ensures last < BUFSIZE && data[BUFSIZE] != NEWLINE
    ensures cnt == 0 ==> last == 0
    ensures p.out == old(p.out) + part && IsRecords(fname, part)
    ensures NulFree(old(data[..filled])) ==>
      NulFree(data[..last]) && part + Report(fname, data[..last] + rest, s) == Report(fname, old(data[..filled]) + rest, s)
  {
    hide WellFormed;
    hide TableOk;
    hide Record;
    hide Report;
    hide Selected;
    hide IsRecords;
    hide CStr;
    hide NulFree;
    last := filled;
    var start := 0;
    ghost var text := data[..filled];
    assert text[0..] == text;
    part := [];
    NoRecords(fname);
    while true
      invariant start <= last == filled && (start == last ==> last == 0)
      invariant data[BUFSIZE] != NEWLINE
      invariant forall k :: start <= k < last ==> data[k] == text[k]
      invariant p.out == old(p.out) + part && IsRecords(fname, part)
      invariant NulFree(text) ==> part + Report(fname, text[start..] + rest, s) == Report(fname, text + rest, s)
      decreases last - start
    {
      var end := FindLineEnd(data, start, last);
      var partial := data[end] != NEWLINE;
      data[end] := NUL;
      ghost var line := data[start..end];
      assert line == text[start..][..end - start];
      if partial && cnt != 0 && start != 0 {
        ShiftDown(data, start, end);
        last := last - start;
        if NulFree(text) {
          SliceNulFree(text, start, filled);
          WholeText(line);
          assert data[..last] == text[start..];
        }
        return;
      }
      PrintIfFound(p, s, fname, data, start, end);
      PrintsRecord(fname, part, line, s);
      ghost var more := if Selected(line, s) then Record(fname, CStr(line)) else [];
      if NulFree(text) {
        assert text[start..end] == line;
        OneTurn(fname, s, text, start, end, rest);
        Reassociate(part, more, Report(fname, (if end < |text| then text[end + 1..] else []) + rest, s));
      }
      part := part + more;
      start := end + 1;
      if start >= last {
        last := 0;
        NoNulInNothing();
        assert data[..last] == (if end < |text| then text[end + 1..] else []);
        return;
      }
    }
  }

  lemma Reassociate(a: seq<byte>, b: seq<byte>, c: seq<byte>)
    ensures a + b + c == a + (b + c)
  {
  }

  /** One turn of the loop on a text without NULs prints what the report owes for its head. */
  lemma OneTurn(fname: seq<byte>, s: seq<byte>, text: seq<byte>, start: nat, end: nat, rest: seq<byte>)
    requires NulFree(text) && start <= end <= |text| <= BUFSIZE
    requires forall k :: start <= k < end ==> text[k] != NEWLINE
    requires end < |text| ==> text[end] == NEWLINE
    requires end == |text| ==> rest == [] || (start == 0 && end == BUFSIZE)
    ensures Report(fname, text[start..] + rest, s)
         == (if Selected(text[start..end], s) then Record(fname, CStr(text[start..end])) else [])
          + Report(fname, (if end < |text| then text[end + 1..] else []) + rest, s)
  {
    hide Record;
    hide Report;
    hide Found;
    hide Head;
    hide Tail;
    hide CStr;
    var line := text[start..end];
    SliceNulFree(text, start, end);
    WholeText(line);
    assert text[start..][..end - start] == line;
    HeadOfBuffer(text[start..], rest, end - start);
    AfterHead(fname, s, text, start, end, rest);
  }

  lemma WholeText(line: seq<byte>)
    requires NulFree(line)
    ensures CStr(line) == line && IndexOf(line, NUL) == |line|
  {
    IndexOfIs(line, NUL, |line|);
  }

  lemma PrintsRecord(fname: seq<byte>, part: seq<byte>, line: seq<byte>, s: seq<byte>)
    requires IsRecords(fname, part) && |line| <= BUFSIZE && forall k :: 0 <= k < |line| ==> line[k] != NEWLINE
    ensures IsRecords(fname, part + if Selected(line, s) then Record(fname, CStr(line)) else [])
    ensures NulFree(line) ==> (Selected(line, s) <==> Found(line, s))
  {
    hide IsRecords;
    hide Record;
    hide Found;
    OneMoreRecord(fname, part, CStr(line));
    assert part + [] == part;
  }

  lemma AfterHead(fname: seq<byte>, s: seq<byte>, text: seq<byte>, start: nat, end: nat, rest: seq<byte>)
    requires start <= end <= |text|
    requires Head(text[start..] + rest) == text[start..][..end - start]
    requires Tail(text[start..] + rest) == (if end < |text| then text[start..][end - start + 1..] else []) + rest
    ensures Report(fname, text[start..] + rest, s)
         == (if Found(text[start..][..end - start], s) then Record(fname, text[start..][..end - start]) else [])
          + Report(fname, (if end < |text| then text[end + 1..] else []) + rest, s)
  {
    var f := text[start..] + rest;
    if f == [] {
      NothingInEmpty(s);
      assert text[start..][..end - start] == [];
    } else {
      ReportStep(fname, f, s);
    }
    assert end < |text| ==> text[start..][end - start + 1..] == text[end + 1..];
  }

  /** The buffer's first `n` bytes, up to its first newline or its end, are the head of the
      text when a newline follows, the buffer is full, or nothing else is left. */
  lemma HeadOfBuffer(text: seq<byte>, rest: seq<byte>, n: nat)
    requires n <= |text| <= BUFSIZE
    requires forall k :: 0 <= k < n ==> text[k] != NEWLINE
    requires n < |text| ==> text[n] == NEWLINE
    requires n == |text| ==> rest == [] || n == BUFSIZE
    ensures Head(text + rest) == text[..n]
    ensures Tail(text + rest) == (if n < |text| then text[n + 1..] else []) + rest
  {
    hide IndexOf;
    var f := text + rest;
    var k := IndexOf(f, NEWLINE);
    if n < |text| || rest == [] {
      IndexOfIs(f, NEWLINE, n);
    } else {
      assert k >= n;
    }
  }

  // ----- one file

  /** What reading a descriptor to its end will still deliver. The clock delivers nothing. */
  ghost function Remaining(img: Image, f: Fd): seq<byte>
    requires WellFormed(img)
  {
    if f.op.FileOp? && f.pos <= |FileBytes(img, f.inode)| then FileBytes(img, f.inode)[f.pos..] else []
  }

  lemma ReadRemaining(img: Image, f: Fd, n: nat)
    requires WellFormed(img) && (f.op.FileOp? || f.op.RtcOp?)
    ensures Remaining(img, f) == Delivered(img, f, n) + Remaining(img, Advanced(img, f, n))
    ensures |Delivered(img, f, n)| < n ==> Remaining(img, Advanced(img, f, n)) == []
    ensures |Delivered(img, f, n)| <= n
  {
    hide WellFormed;
    hide FileBytes;
  }

  /** May `grep` read this name? A directory is outside the model, because reading one clears 33
      bytes however few the buffer has left; the programs skip the dot names. */
  ghost predicate Searchable(img: Image, fname: seq<byte>)
    requires WellFormed(img)
  {
    Opened(img, fname).Some? ==> Opened(img, fname).value.op != DirOp
  }

  /** What a search may print for an open file: records under its name, and for contents without
      NULs exactly the report on them. */
  ghost predicate Searched(img: Image, s: seq<byte>, fname: seq<byte>, f: Fd, part: seq<byte>)
    requires WellFormed(img)
  {
    && IsRecords(fname, part)
    && (NulFree(Remaining(img, f)) ==> part == Report(fname, Remaining(img, f), s))
  }

  /** `do_one_file`. `data` is its buffer on the stack, with whatever the stack held before. */
  method DoOneFile(p: Process, s: seq<byte>, fname: seq<byte>, behind: Fd, data: array<byte>)
      returns (r: int, ghost part: seq<byte>)
    requires p.Valid() && NulFree(s) && NulFree(fname) && Searchable(p.img, fname)
    requires data.Length == BUFSIZE + 1 && data[BUFSIZE] != NEWLINE
    modifies p.file, p`out, data
    ensures p.Valid() && data[BUFSIZE] != NEWLINE && p.out == old(p.out) + part
    ensures forall j :: 0 <= j < TABLE_SIZE ==> p.file[j].flags == old(p.file[j].flags)
    ensures var o := OpenSpec(p.img, old(p.file[..]), fname, behind);
      if o.ret < 0 || o.ret == TABLE_SIZE then
        r == -1 && p.file[..] == old(p.file[..]) && part == if o.ret < 0 then OPEN_FAILED else READ_FAILED
      else
        var f := Opened(p.img, fname).value;
        && r == 0
        && p.file[..] == old(p.file[..])[o.ret := Fd(f.op, 0, 0, 0)]
        && Searched(p.img, s, fname, f, part)
  {
    hide WellFormed;
    hide Searched;
    hide Opened;
    var fd, _ := p.Open(fname, behind);
    if fd == -1 {
      p.Say(OPEN_FAILED);
      return -1, OPEN_FAILED;
    }
    OpenedShape(p.img, fname);
    r, part := SearchDescriptor(p, fd, s, fname, data);
    if r != 0 {
      return;
    }
    var closed := p.Close(fd);
    return;
  }

  /** The read loop of `do_one_file` over what `open` returned. */
  method SearchDescriptor(p: Process, fd: nat, s: seq<byte>, fname: seq<byte>, data: array<byte>)
      returns (r: int, ghost part: seq<byte>)
    requires p.Valid() && NulFree(s) && NulFree(fname)
    requires FIRST_FD <= fd <= TABLE_SIZE
    requires fd < TABLE_SIZE ==> p.file[fd].flags == 1 && (p.file[fd].op.FileOp? || p.file[fd].op.RtcOp?)
    requires data.Length == BUFSIZE + 1 && data[BUFSIZE] != NEWLINE
    modifies p.file, p`out, data
    ensures p.Valid() && data[BUFSIZE] != NEWLINE && p.out == old(p.out) + part
    ensures fd == TABLE_SIZE ==> r == -1 && p.file[..] == old(p.file[..]) && part == READ_FAILED
    ensures fd < TABLE_SIZE ==>
      && r == 0
      && p.file[fd].op == old(p.file[fd].op) && p.file[fd].flags == 1
      && p.file[..] == old(p.file[..])[fd := p.file[fd]]
      && Searched(p.img, s, fname, old(p.file[fd]), part)
  {
    hide WellFormed;
    hide Report;
    hide Remaining;
    hide Delivered;
    hide Advanced;
    hide IsRecords;
    if fd == TABLE_SIZE {
      var cnt := p.Read(fd, data, 0, BUFSIZE, []);
      p.Say(READ_FAILED);
      return -1, READ_FAILED;
    }
    part := SearchOpen(p, fd, s, fname, data);
    r := 0;
  }

  method SearchOpen(p: Process, fd: nat, s: seq<byte>, fname: seq<byte>, data: array<byte>) returns (ghost part: seq<byte>)
    requires p.Valid() && NulFree(s) && NulFree(fname)
    requires FIRST_FD <= fd < TABLE_SIZE && p.file[fd].flags == 1 && (p.file[fd].op.FileOp? || p.file[fd].op.RtcOp?)
    requires data.Length == BUFSIZE + 1 && data[BUFSIZE] != NEWLINE
    modifies p.file, p`out, data
    ensures p.Valid() && data[BUFSIZE] != NEWLINE && p.out == old(p.out) + part
    ensures p.file[fd].op == old(p.file[fd].op) && p.file[fd].flags == 1
    ensures p.file[..] == old(p.file[..])[fd := p.file[fd]]
    ensures Searched(p.img, s, fname, old(p.file[fd]), part)
  {
    hide WellFormed;
    hide Report;
    hide Remaining;
    hide Delivered;
    hide Advanced;
    hide IsRecords;
    hide NulFree;
    var last: nat, cnt: nat := 0, 1;
    ghost var f := p.file[fd];
    ghost var all := Remaining(p.img, f);
    ghost var rest := all;
    assert data[..0] + rest == rest && data[..0] == [];
    part := [];
    NoRecords(fname);
    NoNulInNothing();
    while cnt != 0
      invariant p.Valid()
      invariant last < BUFSIZE && data[BUFSIZE] != NEWLINE
      invariant f == p.file[fd] && f.flags == 1 && f.op == old(p.file[fd].op)
      invariant p.file[..] == old(p.file[..])[fd := f]
      invariant rest == Remaining(p.img, f)
      invariant p.out == old(p.out) + part && IsRecords(fname, part)
      invariant NulFree(all) ==> NulFree(data[..last]) && NulFree(rest)
      invariant NulFree(all) ==> part + Report(fname, data[..last] + rest, s) == Report(fname, all, s)
      invariant cnt == 0 ==> last == 0 && rest == []
      decreases cnt != 0, |rest|
    {
      ghost var kept := data[..last];
      cnt, rest := Refill(p, fd, data, last, rest);
      f := p.file[fd];
      last := last + cnt;
      ghost var more;
      last, more := SearchBuffer(p, s, fname, data, last, cnt, rest);
      MoreRecords(fname, part, more);
      Reassociate(part, more, Report(fname, data[..last] + rest, s));
      part := part + more;
    }
    assert data[..last] + rest == [];
    EmptyReport(fname, s);
  }

  /** One read behind the `last` bytes that are kept. It is short only at the end. */
  method Refill(p: Process, fd: nat, data: array<byte>, last: nat, ghost rest: seq<byte>) returns (cnt: nat, ghost left: seq<byte>)
    requires p.Valid() && FIRST_FD <= fd < TABLE_SIZE && p.file[fd].flags == 1
    requires p.file[fd].op.FileOp? || p.file[fd].op.RtcOp?
    requires data.Length == BUFSIZE + 1 && last < BUFSIZE && rest == Remaining(p.img, p.file[fd])
    modifies p.file, data
    ensures p.Valid() && last + cnt <= BUFSIZE && data[BUFSIZE] == old(data[BUFSIZE])
    ensures p.file[fd].flags == 1 && p.file[fd].op == old(p.file[fd].op) && p.file[..] == old(p.file[..])[fd := p.file[fd]]
    ensures left == Remaining(p.img, p.file[fd]) && |left| + cnt == |rest|
    ensures left == [] || last + cnt == BUFSIZE
    ensures data[..last + cnt] + left == old(data[..last]) + rest
    ensures NulFree(old(data[..last])) && NulFree(rest) ==> NulFree(data[..last + cnt]) && NulFree(left)
  {
    hide WellFormed;
    hide Remaining;
    hide Delivered;
    hide Advanced;
    hide NulFree;
    ghost var f, kept := p.file[fd], data[..last];
    ReadRemaining(p.img, f, BUFSIZE - last);
    AdvancedKind(p.img, f, BUFSIZE - last);
    cnt := p.Read(fd, data, last, BUFSIZE - last, []);
    left := Remaining(p.img, p.file[fd]);
    BufferExtended(data, last, cnt, kept, rest, left);
  }

  lemma NoNulInNothing()
    ensures NulFree([])
  {
  }

  lemma BufferExtended(data: array<byte>, last: nat, cnt: nat, kept: seq<byte>, rest: seq<byte>, left: seq<byte>)
    requires last + cnt <= data.Length && data[..last] == kept
    requires rest == data[last..last + cnt] + left
    ensures data[..last + cnt] + left == kept + rest
    ensures NulFree(kept) && NulFree(rest) ==> NulFree(data[..last + cnt]) && NulFree(left)
  {
    assert data[..last + cnt] == kept + data[last..last + cnt];
    assert rest[cnt..] == left && rest[..cnt] == data[last..last + cnt];
  }

  lemma EmptyReport(fname: seq<byte>, s: seq<byte>)
    ensures Report(fname, [], s) == []
  {
  }

  lemma AdvancedKind(img: Image, f: Fd, n: nat)
    requires WellFormed(img)
    ensures Advanced(img, f, n).op == f.op && Advanced(img, f, n).flags == f.flags
  {
  }

  // ----- the whole directory

  datatype Result = Result(status: int, printed: seq<byte>)

  ghost predicate Skipped(name: seq<byte>) { name != [] && name[0] == DOT }

  /** What `grep` may make of the directory entries from `i` on: it stops at an empty name, skips
      names that start with a dot, and searches every other file. `room` says whether a descriptor
      is free beside the directory's, and `behind` what stands behind the table. */
  ghost predicate GrepFrom(img: Image, s: seq<byte>, i: nat, room: bool, behind: Fd, r: Result)
    requires WellFormed(img)
    decreases DirCount(img) - i
  {
    if i >= DirCount(img) || Names(img)[i] == [] then r == Result(0, [])
    else if Skipped(Names(img)[i]) then GrepFrom(img, s, i + 1, room, behind, r)
    else match Opened(img, Names(img)[i])
      case None => r == Result(3, OPEN_FAILED)
      case Some(f) =>
        if room then
          exists part, rest ::
            && Searched(img, s, Names(img)[i], f, part)
            && GrepFrom(img, s, i + 1, room, behind, rest)
            && r == Result(rest.status, part + rest.printed)
        else r == Result(3, if f.op.RtcOp? && behind.flags != 1 then READ_FAILED else OPEN_FAILED)
  }

  // ----- the output, entry by entry

  /** The search does not get past entry `n`: the directory or its names end there, or it is a file
      that does not open. */
  ghost predicate EndsAt(img: Image, n: nat, room: bool)
    requires WellFormed(img)
  {
    || n >= DirCount(img)
    || Names(img)[n] == []
    || (Names(img)[n][0] != DOT && (!room || Opened(img, Names(img)[n]).None?))
  }

  /** What the entry where the search ends makes of status and output. */
  ghost function Ending(img: Image, n: nat, behind: Fd): Result
    requires WellFormed(img)
  {
    if n >= DirCount(img) || Names(img)[n] == [] then Result(0, [])
    else match Opened(img, Names(img)[n])
      case None => Result(3, OPEN_FAILED)
      case Some(f) => Result(3, if f.op.RtcOp? && behind.flags != 1 then READ_FAILED else OPEN_FAILED)
  }

  /** One entry's part of the output: nothing for a name that starts with a dot, and for any other
      what searching its file prints. */
  ghost predicate PartOf(img: Image, s: seq<byte>, k: nat, part: seq<byte>)
    requires WellFormed(img)
  {
    k < DirCount(img) && Names(img)[k] != [] &&
    var name := Names(img)[k];
    if name[0] == DOT then part == []
    else Opened(img, name).Some? && Searched(img, s, name, Opened(img, name).value, part)
  }

  /** The entries from `i` on contribute `parts`, one by one. */
  ghost predicate AllParts(img: Image, s: seq<byte>, i: nat, room: bool, parts: seq<seq<byte>>)
    requires WellFormed(img)
    decreases |parts|
  {
    parts == [] || (!EndsAt(img, i, room) && PartOf(img, s, i, parts[0]) && AllParts(img, s, i + 1, room, parts[1..]))
  }

  lemma {:induction false} PartAt(img: Image, s: seq<byte>, i: nat, room: bool, parts: seq<seq<byte>>, d: nat)
    requires WellFormed(img) && AllParts(img, s, i, room, parts) && d < |parts|
    ensures !EndsAt(img, i + d, room) && PartOf(img, s, i + d, parts[d])
    decreases d
  {
    hide WellFormed;
    hide EndsAt;
    hide PartOf;
    if d > 0 {
      PartAt(img, s, i + 1, room, parts[1..], d - 1);
      assert parts[1..][d - 1] == parts[d] && i + 1 + (d - 1) == i + d;
    }
  }

  /** The parts, and then the ending. */
  function Joined(parts: seq<seq<byte>>, ending: Result): Result {
    Result(ending.status, Concat(parts) + ending.printed)
  }

  /** The entries from `i` on, up to the first that ends the search, make the result. */
  ghost predicate Output(img: Image, s: seq<byte>, i: nat, room: bool, behind: Fd, r: Result, parts: seq<seq<byte>>)
    requires WellFormed(img)
  {
    && EndsAt(img, i + |parts|, room)
    && AllParts(img, s, i, room, parts)
    && r == Joined(parts, Ending(img, i + |parts|, behind))
  }

  lemma JoinedTail(parts: seq<seq<byte>>, ending: Result)
    requires parts != []
    ensures Joined(parts, ending) == Result(ending.status, parts[0] + Joined(parts[1..], ending).printed)
  {
    assert parts[0] + (Concat(parts[1..]) + ending.printed) == parts[0] + Concat(parts[1..]) + ending.printed;
  }

  lemma OutputTail(img: Image, s: seq<byte>, i: nat, room: bool, behind: Fd, r: Result, parts: seq<seq<byte>>)
    requires WellFormed(img) && parts != []
    ensures var rest := Joined(parts[1..], Ending(img, i + |parts|, behind));
      Output(img, s, i, room, behind, r, parts) <==>
        && !EndsAt(img, i, room) && PartOf(img, s, i, parts[0])
        && Output(img, s, i + 1, room, behind, rest, parts[1..])
        && r == Result(rest.status, parts[0] + rest.printed)
  {
    hide WellFormed;
    hide EndsAt;
    hide PartOf;
    hide Joined;
    var ending := Ending(img, i + |parts|, behind);
    hide Ending;
    JoinedTail(parts, ending);
    JoinedStatus(parts[1..], ending);
    assert i + 1 + |parts[1..]| == i + |parts|;
  }

  lemma JoinedStatus(parts: seq<seq<byte>>, ending: Result)
    ensures Joined(parts, ending).status == ending.status
  {
  }

  lemma {:induction false} SomeOutput(img: Image, s: seq<byte>, i: nat, room: bool, behind: Fd, r: Result) returns (parts: seq<seq<byte>>)
    requires WellFormed(img) && GrepFrom(img, s, i, room, behind, r)
    ensures Output(img, s, i, room, behind, r, parts)
    decreases DirCount(img) - i
  {
    hide WellFormed;
    hide Opened;
    hide Searched;
    hide Names;
    hide Output;
    hide Word;
    if EndsAt(img, i, room) {
      parts := [];
      NoParts(img, s, i, room, behind, r);
    } else {
      var name := Names(img)[i];
      var part, rest := [], r;
      if name[0] != DOT {
        var f := Opened(img, name).value;
        part, rest :| Searched(img, s, name, f, part) && GrepFrom(img, s, i + 1, room, behind, rest) && r == Result(rest.status, part + rest.printed);
      } else {
        assert [] + r.printed == r.printed;
      }
      var more := SomeOutput(img, s, i + 1, room, behind, rest);
      parts := [part] + more;
      assert parts[1..] == more;
      OutputTail(img, s, i, room, behind, r, parts);
      OutputResult(img, s, i + 1, room, behind, rest, more);
    }
  }

  lemma OutputResult(img: Image, s: seq<byte>, i: nat, room: bool, behind: Fd, r: Result, parts: seq<seq<byte>>)
    requires WellFormed(img) && Output(img, s, i, room, behind, r, parts)
    ensures r == Joined(parts, Ending(img, i + |parts|, behind))
  {
  }

  lemma NoParts(img: Image, s: seq<byte>, i: nat, room: bool, behind: Fd, r: Result)
    requires WellFormed(img) && EndsAt(img, i, room)
    ensures Output(img, s, i, room, behind, r, []) <==> r == Ending(img, i, behind)
    ensures GrepFrom(img, s, i, room, behind, r) <==> r == Ending(img, i, behind)
  {
    hide WellFormed;
    hide Opened;
    hide Names;
    hide Word;
    assert AllParts(img, s, i, room, []);
    assert Joined([], Ending(img, i, behind)) == Ending(img, i, behind);
  }

  lemma {:induction false} OutputIsResult(img: Image, s: seq<byte>, i: nat, room: bool, behind: Fd, r: Result, parts: seq<seq<byte>>)
    requires WellFormed(img) && Output(img, s, i, room, behind, r, parts)
    ensures GrepFrom(img, s, i, room, behind, r)
    decreases |parts|
  {
    hide WellFormed;
    hide Opened;
    hide Searched;
    hide Names;
    hide Word;
    if parts == [] {
      NoParts(img, s, i, room, behind, r);
    } else {
      var rest := Joined(parts[1..], Ending(img, i + |parts|, behind));
      OutputTail(img, s, i, room, behind, r, parts);
      OutputIsResult(img, s, i + 1, room, behind, rest, parts[1..]);
      OneEntry(img, s, i, room, behind, rest, parts[0]);
    }
  }

  lemma OneEntry(img: Image, s: seq<byte>, i: nat, room: bool, behind: Fd, rest: Result, part: seq<byte>)
    requires WellFormed(img) && !EndsAt(img, i, room) && PartOf(img, s, i, part)
    requires GrepFrom(img, s, i + 1, room, behind, rest)
    ensures GrepFrom(img, s, i, room, behind, Result(rest.status, part + rest.printed))
  {
    hide WellFormed;
    hide Opened;
    hide Searched;
    hide Names;
    hide Word;
    if Names(img)[i][0] == DOT { assert part + rest.printed == rest.printed; }
  }

  /** The output of the whole program is the concatenation, in directory order, of what searching
      each file prints that does not start with a dot, up to the first empty name or the first file
      that does not open, which decides the status and the last message. */
  lemma OutputByEntry(img: Image, s: seq<byte>, room: bool, behind: Fd, r: Result)
    requires WellFormed(img)
    ensures GrepFrom(img, s, 0, room, behind, r) <==> exists parts :: Output(img, s, 0, room, behind, r, parts)
  {
    hide WellFormed;
    hide GrepFrom;
    hide Output;
    if GrepFrom(img, s, 0, room, behind, r) {
      var parts := SomeOutput(img, s, 0, room, behind, r);
    }
    if exists parts :: Output(img, s, 0, room, behind, r, parts) {
      var parts :| Output(img, s, 0, room, behind, r, parts);
      OutputIsResult(img, s, 0, room, behind, r, parts);
    }
  }

  /** No searched file is missed: when the program ends with status 0, every entry before the first
      empty name that does not start with a dot has opened, and what its search printed stands in
      the output. */
  lemma EveryFileSearched(img: Image, s: seq<byte>, behind: Fd, r: Result, j: nat)
      returns (before: seq<byte>, part: seq<byte>, after: seq<byte>)
    requires WellFormed(img) && GrepFrom(img, s, 0, true, behind, r) && r.status == 0
    requires j < DirCount(img) && Names(img)[j] != [] && Names(img)[j][0] != DOT
    requires forall k :: 0 <= k <= j ==> Names(img)[k] != []
    ensures r.printed == before + part + after
    ensures Opened(img, Names(img)[j]).Some? && Searched(img, s, Names(img)[j], Opened(img, Names(img)[j]).value, part)
  {
    hide WellFormed;
    hide Opened;
    hide Searched;
    hide Names;
    hide Word;
    hide GrepFrom;
    hide Output;
    hide EndsAt;
    hide PartOf;
    hide Concat;
    var parts := SomeOutput(img, s, 0, true, behind, r);
    Reached(img, s, behind, r, parts, j);
    var ending := Ending(img, 0 + |parts|, behind).printed;
    before, part, after := Concat(parts[..j]), parts[j], Concat(parts[j + 1..]) + ending;
    ConcatAt(parts, j);
    FilePart(img, s, j, part);
    OutputResult(img, s, 0, true, behind, r, parts);
    assert before + part + Concat(parts[j + 1..]) + ending == before + part + after;
  }

  lemma FilePart(img: Image, s: seq<byte>, j: nat, part: seq<byte>)
    requires WellFormed(img) && PartOf(img, s, j, part) && Names(img)[j][0] != DOT
    ensures j < DirCount(img) && Opened(img, Names(img)[j]).Some?
    ensures Searched(img, s, Names(img)[j], Opened(img, Names(img)[j]).value, part)
  {
  }

  lemma Reached(img: Image, s: seq<byte>, behind: Fd, r: Result, parts: seq<seq<byte>>, j: nat)
    requires WellFormed(img) && Output(img, s, 0, true, behind, r, parts) && r.status == 0
    requires j < DirCount(img) && forall k :: 0 <= k <= j ==> Names(img)[k] != []
    ensures j < |parts| && PartOf(img, s, j, parts[j])
  {
    hide WellFormed;
    hide Opened;
    hide Names;
    hide Word;
    hide Concat;
    assert EndsAt(img, 0 + |parts|, true);
    if j < |parts| { PartAt(img, s, 0, true, parts, j); }
  }

  lemma {:induction false} ConcatAt(parts: seq<seq<byte>>, j: nat)
    requires j < |parts|
    ensures Concat(parts) == Concat(parts[..j]) + parts[j] + Concat(parts[j + 1..])
  {
    if j == 0 {
      assert parts[..0] == [];
    } else {
      ConcatAt(parts[1..], j - 1);
      assert parts[..j][1..] == parts[1..][..j - 1];
      assert parts[1..][j - 1 + 1..] == parts[j + 1..];
    }
  }

  // ----- the form of the output

  lemma {:induction false} RecordLines(fname: seq<byte>, lines: seq<seq<byte>>)
    requires NEWLINE !in fname && forall k :: 0 <= k < |lines| ==> NEWLINE !in lines[k]
    ensures |Lines(Records(fname, lines))| == |lines|
    ensures forall k :: 0 <= k < |lines| ==> Lines(Records(fname, lines))[k] == fname + [58] + lines[k]
  {
    if lines != [] {
      RecordLines(fname, lines[1..]);
      var line := fname + [58] + lines[0];
      LinesCons(line, Records(fname, lines[1..]));
      assert Records(fname, lines) == line + [NEWLINE] + Records(fname, lines[1..]);
      hide Lines;
      forall k | 0 <= k < |lines| ensures Lines(Records(fname, lines))[k] == fname + [58] + lines[k] {
        if k > 0 { assert lines[1..][k - 1] == lines[k]; }
      }
    }
  }

  /** Cut at its newlines, the report on a file of short lines is one line per matching line of the
      file, in file order, each with the file's name and a colon in front. */
  lemma ReportLines(fname: seq<byte>, f: seq<byte>, s: seq<byte>)
    requires NEWLINE !in fname
    requires forall line :: line in Lines(f) && Found(line, s) ==> |line| <= BUFSIZE
    ensures var matching, printed := Matching(Lines(f), s), Lines(Report(fname, f, s));
      |printed| == |matching| && forall k :: 0 <= k < |matching| ==> printed[k] == fname + [58] + matching[k]
  {
    hide Found;
    hide Lines;
    hide Records;
    hide Segments;
    hide Matching;
    PrintsMatchingLines(f, s);
    forall k | 0 <= k < |Matching(Lines(f), s)| ensures NEWLINE !in Matching(Lines(f), s)[k] {
      MatchingMembers(Lines(f), s, Matching(Lines(f), s)[k]);
      LinesHaveNone(f);
    }
    RecordLines(fname, Matching(Lines(f), s));
  }

  lemma {:induction false} LinesHaveNone(f: seq<byte>)
    ensures forall line :: line in Lines(f) ==> NEWLINE !in line
    decreases |f|
  {
    hide Lines;
    hide IndexOf;
    if f == [] {
      NoLines();
    } else {
      LinesStep(f, []);
      FirstHasNone(f);
      LinesHaveNone(AfterLine(f));
    }
  }

  lemma FirstHasNone(f: seq<byte>)
    ensures NEWLINE !in FirstLine(f)
    ensures f != [] ==> |AfterLine(f)| < |f|
  {
  }

  /** When no file of the directory holds a NUL there is only one such result. */
  lemma {:induction false} OneResult(img: Image, s: seq<byte>, i: nat, room: bool, behind: Fd, a: Result, b: Result)
    requires WellFormed(img)
    requires forall j :: 0 <= j < DirCount(img) && Opened(img, Names(img)[j]).Some? ==> NulFree(Remaining(img, Opened(img, Names(img)[j]).value))
    requires GrepFrom(img, s, i, room, behind, a) && GrepFrom(img, s, i, room, behind, b)
    ensures a == b
    decreases DirCount(img) - i
  {
    hide WellFormed;
    hide Opened;
    hide Remaining;
    hide Report;
    hide Names;
    if i < DirCount(img) && Names(img)[i] != [] {
      var name := Names(img)[i];
      if Skipped(name) {
        OneResult(img, s, i + 1, room, behind, a, b);
      } else if Opened(img, name).Some? && room {
        var f := Opened(img, name).value;
        var pa, ra :| Searched(img, s, name, f, pa) && GrepFrom(img, s, i + 1, room, behind, ra) && a == Result(ra.status, pa + ra.printed);
        var pb, rb :| Searched(img, s, name, f, pb) && GrepFrom(img, s, i + 1, room, behind, rb) && b == Result(rb.status, pb + rb.printed);
        OneResult(img, s, i + 1, room, behind, ra, rb);
      }
    }
  }

  /** `sofar` has been printed for the entries before `i`: any result for the others completes it
      to a result for all. */
  ghost predicate Continues(img: Image, s: seq<byte>, i: nat, room: bool, behind: Fd, sofar: seq<byte>)
    requires WellFormed(img)
  {
    forall rest :: GrepFrom(img, s, i, room, behind, rest) ==>
      GrepFrom(img, s, 0, room, behind, Result(rest.status, sofar + rest.printed))
  }

  /** What the code printed for entry `i` when it goes on to the next. */
  ghost predicate Passed(img: Image, s: seq<byte>, i: nat, room: bool, part: seq<byte>)
    requires WellFormed(img) && i < DirCount(img)
  {
    var name := Names(img)[i];
    name != [] &&
    if Skipped(name) then part == []
    else room && Opened(img, name).Some? && Searched(img, s, name, Opened(img, name).value, part)
  }

  lemma ContinuesFromStart(img: Image, s: seq<byte>, room: bool, behind: Fd)
    requires WellFormed(img)
    ensures Continues(img, s, 0, room, behind, [])
  {
    hide GrepFrom;
    hide WellFormed;
    forall rest | GrepFrom(img, s, 0, room, behind, rest)
      ensures GrepFrom(img, s, 0, room, behind, Result(rest.status, [] + rest.printed))
    {
      assert [] + rest.printed == rest.printed;
    }
  }

  lemma ContinuesPast(img: Image, s: seq<byte>, i: nat, room: bool, behind: Fd, sofar: seq<byte>, part: seq<byte>)
    requires WellFormed(img) && i < DirCount(img)
    requires Continues(img, s, i, room, behind, sofar) && Passed(img, s, i, room, part)
    ensures Continues(img, s, i + 1, room, behind, sofar + part)
  {
    hide WellFormed;
    hide Opened;
    hide Searched;
    hide Names;
    forall rest | GrepFrom(img, s, i + 1, room, behind, rest)
      ensures GrepFrom(img, s, 0, room, behind, Result(rest.status, sofar + part + rest.printed))
    {
      var here := Result(rest.status, part + rest.printed);
      PassedOn(img, s, i, room, behind, part, rest);
      assert sofar + here.printed == sofar + part + rest.printed;
    }
  }

  lemma PassedOn(img: Image, s: seq<byte>, i: nat, room: bool, behind: Fd, part: seq<byte>, rest: Result)
    requires WellFormed(img) && i < DirCount(img)
    requires Passed(img, s, i, room, part) && GrepFrom(img, s, i + 1, room, behind, rest)
    ensures GrepFrom(img, s, i, room, behind, Result(rest.status, part + rest.printed))
  {
    hide WellFormed;
    hide Opened;
    hide Searched;
    hide Names;
    if Skipped(Names(img)[i]) {
      assert part + rest.printed == rest.printed;
    }
  }

  ghost predicate SearchableDirectory(img: Image)
    requires WellFormed(img)
  {
    forall i :: 0 <= i < DirCount(img) && Names(img)[i] != [] && !Skipped(Names(img)[i]) ==> Searchable(img, Names(img)[i])
  }

  lemma FlagsDecideFree(t: Table, u: Table, fd: nat)
    requires |t| == |u| == TABLE_SIZE && fd <= TABLE_SIZE
    requires forall j :: 0 <= j < TABLE_SIZE ==> t[j].flags == u[j].flags
    ensures LowestFree(t, fd) == LowestFree(u, fd)
    decreases TABLE_SIZE - fd
  {
  }

  /** `main`. `search` is what `getargs` delivered (nothing when it failed). */
  method GrepMain(p: Process, search: seq<byte>, behind: Fd, data: array<byte>) returns (status: int)
    requires p.Valid() && NulFree(search) && SearchableDirectory(p.img)
    requires Opened(p.img, DOT_NAME).Some? ==> Opened(p.img, DOT_NAME).value.op.DirOp?
    requires data.Length == BUFSIZE + 1 && data[BUFSIZE] != NEWLINE
    modifies p.file, p`out, data
    ensures search == [] ==> status == 3 && p.out == old(p.out) + NO_ARGUMENT
    ensures search != [] ==>
      var o := OpenSpec(p.img, old(p.file[..]), DOT_NAME, behind);
      if o.ret < 0 then status == 2 && p.out == old(p.out) + DIR_FAILED
      else
        && old(p.out) <= p.out
        && GrepFrom(p.img, search, 0, LowestFree(o.table, FIRST_FD) < TABLE_SIZE, behind, Result(status, p.out[|old(p.out)|..]))
  {
    hide WellFormed;
    hide Opened;
    hide GrepFrom;
    hide Word;
    hide Names;
    if search == [] {
      p.Say(NO_ARGUMENT);
      return 3;
    }
    var fd, _ := p.Open(DOT_NAME, behind);
    if fd == -1 {
      p.Say(DIR_FAILED);
      return 2;
    }
    OpenedShape(p.img, DOT_NAME);
    ghost var printed;
    status, printed := SearchDirectory(p, fd, search, behind, data);
  }

  method SearchDirectory(p: Process, fd: nat, search: seq<byte>, behind: Fd, data: array<byte>)
      returns (status: int, ghost printed: seq<byte>)
    requires p.Valid() && NulFree(search) && SearchableDirectory(p.img)
    requires FIRST_FD <= fd < TABLE_SIZE && p.file[fd].flags == 1 && p.file[fd].op.DirOp? && p.file[fd].pos == 0
    requires data.Length == BUFSIZE + 1 && data[BUFSIZE] != NEWLINE
    modifies p.file, p`out, data
    ensures p.out == old(p.out) + printed
    ensures GrepFrom(p.img, search, 0, old(LowestFree(p.file[..], FIRST_FD)) < TABLE_SIZE, behind, Result(status, printed))
  {
    hide WellFormed;
    hide Word;
    hide Names;
    hide TableOk;
    hide GrepFrom;
    hide Continues;
    hide Passed;
    hide SearchableDirectory;
    hide LowestFree;
    var buf := new byte[DIR_ROOM];
    ghost var i: nat, table := 0, p.file[..];
    ghost var room := LowestFree(table, FIRST_FD) < TABLE_SIZE;
    var cnt := p.ReadEntry(fd, buf);
    printed := [];
    ContinuesFromStart(p.img, search, room, behind);
    while cnt != 0
      invariant p.Valid() && data[BUFSIZE] != NEWLINE
      invariant p.file[fd].flags == 1 && p.file[fd].op.DirOp?
      invariant forall j :: 0 <= j < TABLE_SIZE ==> p.file[j].flags == table[j].flags
      invariant i <= DirCount(p.img) && (i == DirCount(p.img) ==> cnt == 0)
      invariant i < DirCount(p.img) ==>
        cnt == |Names(p.img)[i]| <= NAME_LEN && p.file[fd].pos == i + 1 && buf[..cnt] == Names(p.img)[i] && NulFree(buf[..cnt])
      invariant p.out == old(p.out) + printed && Continues(p.img, search, i, room, behind, printed)
      decreases DirCount(p.img) - i
    {
      FlagsDecideFree(p.file[..], table, FIRST_FD);
      var r;
      ghost var part;
      r, part := SearchEntry(p, fd, search, buf, cnt, i, behind, data);
      if r != 0 {
        Complete(p.img, search, i, room, behind, printed, Result(3, part));
        return 3, printed + part;
      }
      ContinuesPast(p.img, search, i, room, behind, printed, part);
      printed := printed + part;
      i := i + 1;
      cnt := p.ReadEntry(fd, buf);
    }
    GrepEnds(p.img, search, i, room, behind);
    Complete(p.img, search, i, room, behind, printed, Result(0, []));
    assert printed + [] == printed;
    return 0, printed;
  }

  lemma Complete(img: Image, s: seq<byte>, i: nat, room: bool, behind: Fd, sofar: seq<byte>, r: Result)
    requires WellFormed(img) && Continues(img, s, i, room, behind, sofar) && GrepFrom(img, s, i, room, behind, r)
    ensures GrepFrom(img, s, 0, room, behind, Result(r.status, sofar + r.printed))
  {
    hide GrepFrom;
    hide WellFormed;
  }

  lemma GrepEnds(img: Image, s: seq<byte>, i: nat, room: bool, behind: Fd)
    requires WellFormed(img) && i <= DirCount(img)
    requires i < DirCount(img) ==> Names(img)[i] == []
    ensures GrepFrom(img, s, i, room, behind, Result(0, []))
  {
  }

  /** The body of the loop of `main`, for the entry whose name is in `buf`. */
  method SearchEntry(p: Process, ghost fd: nat, search: seq<byte>, buf: array<byte>, cnt: nat, ghost i: nat, behind: Fd,
                     data: array<byte>) returns (r: int, ghost part: seq<byte>)
    requires p.Valid() && NulFree(search) && SearchableDirectory(p.img)
    requires FIRST_FD <= fd < TABLE_SIZE && p.file[fd].flags == 1
    requires i < DirCount(p.img) && buf.Length == DIR_ROOM
    requires 0 < cnt <= NAME_LEN && buf[..cnt] == Names(p.img)[i] && NulFree(buf[..cnt])
    requires data.Length == BUFSIZE + 1 && data[BUFSIZE] != NEWLINE && buf != data
    modifies p.file, p`out, data, buf
    ensures p.Valid() && data[BUFSIZE] != NEWLINE && p.file[fd] == old(p.file[fd])
    ensures forall j :: 0 <= j < TABLE_SIZE ==> p.file[j].flags == old(p.file[j].flags)
    ensures p.out == old(p.out) + part
    ensures var room := old(LowestFree(p.file[..], FIRST_FD)) < TABLE_SIZE;
      if r == 0 then Passed(p.img, search, i, room, part)
      else GrepFrom(p.img, search, i, room, behind, Result(3, part))
  {
    hide WellFormed;
    hide Opened;
    hide Searched;
    hide Word;
    hide Names;
    hide Searchable;
    hide CStr;
    hide TableOk;
    ghost var name := Names(p.img)[i];
    assert buf[0] == name[0];
    if buf[0] == DOT {
      return 0, [];
    }
    buf[cnt] := NUL;
    assert buf[..][0..] == buf[..] && buf[..][0..cnt] == name;
    CStrFrom(buf[..], 0, cnt);
    r, part := DoOneFile(p, search, CStr(buf[..]), behind, data);
  }
}
