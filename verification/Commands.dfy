/** Command lines: the kernel's four-state parser with `getargs` (student-distrib/syscall.c) and
    the Linux emulation's in-place splitter with its joiner (syscalls/ece391emulate.c). */
module Commands {
  import opened Bytes
  import opened CStrings

  const NAME_MAX := 32
  const CMD_LEN := 128

  // ----- what the two parsers deliver

  function LeadingSpaces(s: seq<byte>): (n: nat)
    ensures n <= |s|
    ensures forall i :: 0 <= i < n ==> s[i] == SPACE
    ensures n < |s| ==> s[n] != SPACE
  {
    if s != [] && s[0] == SPACE then 1 + LeadingSpaces(s[1..]) else 0
  }

  function SkipSpaces(s: seq<byte>): seq<byte> {
    s[LeadingSpaces(s)..]
  }

  /** The program word: everything up to the first space, leading spaces aside. */
  function FirstWord(command: seq<byte>): seq<byte> {
    var t := SkipSpaces(command);
    t[..IndexOf(t, SPACE)]
  }

  /** The argument: everything after the program word and the spaces that follow it. */
  function RestArg(command: seq<byte>): seq<byte> {
    var t := SkipSpaces(command);
    SkipSpaces(t[IndexOf(t, SPACE)..])
  }

  /** Where the emulation's word ends: at a space, a newline or the end of the text. */
  function WordEnd(s: seq<byte>): (n: nat)
    ensures n <= |s|
    ensures forall i :: 0 <= i < n ==> s[i] != SPACE && s[i] != NEWLINE
    ensures n < |s| ==> s[n] == SPACE || s[n] == NEWLINE
  {
    if s == [] || s[0] == SPACE || s[0] == NEWLINE then 0 else 1 + WordEnd(s[1..])
  }

  /** The arguments in `s`: words apart by spaces. A newline ends a word, and ends the list when
      it stands where a word should begin. */
  function Args(s: seq<byte>): seq<seq<byte>>
    decreases |s|
  {
    var t := SkipSpaces(s);
    if t == [] || t[0] == NEWLINE then []
    else
      var k := WordEnd(t);
      [t[..k]] + Args(if k < |t| then t[k + 1..] else [])
  }

  /** `argv[1..]` of the emulated command. */
  function EmulatedArgs(command: seq<byte>): seq<seq<byte>> {
    var k := WordEnd(command);
    if k < |command| then Args(command[k + 1..]) else []
  }

  function Join(args: seq<seq<byte>>): seq<byte> {
    if args == [] then []
    else if |args| == 1 then args[0]
    else args[0] + [SPACE] + Join(args[1..])
  }

  // ----- the kernel's parser

  datatype Parsed = FileNameTooLong | Parsed(word: seq<byte>, arg: seq<byte>)

  lemma SkipStep(s: seq<byte>, i: nat)
    requires i < |s|
    ensures s[i] == SPACE ==> SkipSpaces(s[i..]) == SkipSpaces(s[i + 1..])
    ensures s[i] != SPACE ==> SkipSpaces(s[i..]) == s[i..]
  {
    assert s[i..][1..] == s[i + 1..];
  }

  lemma IndexStep(s: seq<byte>, i: nat, c: byte)
    requires i < |s|
    ensures s[i] == c ==> IndexOf(s[i..], c) == 0
    ensures s[i] != c ==> IndexOf(s[i..], c) == 1 + IndexOf(s[i + 1..], c)
  {
    assert s[i..][1..] == s[i + 1..];
  }

  /** What is left to parse in each state, so that the whole is always the same. */
  ghost function WordFrom(flag: nat, word: seq<byte>, rest: seq<byte>): seq<byte> {
    if flag == 0 then FirstWord(rest)
    else if flag == 1 then word + rest[..IndexOf(rest, SPACE)]
    else word
  }

  ghost function ArgFrom(flag: nat, arg: seq<byte>, rest: seq<byte>): seq<byte> {
    if flag == 0 then RestArg(rest)
    else if flag == 1 then SkipSpaces(rest[IndexOf(rest, SPACE)..])
    else if flag == 2 then SkipSpaces(rest)
    else arg + rest
  }

  /** The code keeps the argument in an array of 129 bytes and relies on it to fit; a command
      that is refused for its word never gets that far. */
  predicate ArgFits(command: seq<byte>) {
    |FirstWord(command)| <= NAME_MAX ==> |RestArg(command)| <= CMD_LEN
  }

  /** The parser part of `execute`. */
  method Parse(command: seq<byte>) returns (r: Parsed)
    requires NulFree(command) && ArgFits(command)
    ensures r == if |FirstWord(command)| > NAME_MAX then FileNameTooLong else Parsed(FirstWord(command), RestArg(command))
  {
    hide FirstWord;
    hide RestArg;
    hide WordFrom;
    hide ArgFrom;
    hide CStr;
    var fname, arg := new byte[NAME_MAX + 1], new byte[CMD_LEN + 1];
    var exeIdx, argIdx, flag, i := 0, 0, 0, 0;
    ParseStart(command);
    while i < |command|
      invariant i <= |command| && exeIdx <= NAME_MAX && argIdx <= CMD_LEN && flag <= 3
      invariant (flag == 0 ==> exeIdx == 0) && (flag < 3 ==> argIdx == 0)
      invariant WordFrom(flag, fname[..exeIdx], command[i..]) == FirstWord(command)
      invariant ArgFrom(flag, arg[..argIdx], command[i..]) == RestArg(command)
      invariant NulFree(fname[..exeIdx]) && NulFree(arg[..argIdx])
    {
      assert command[i] in command;
      ghost var word, text := fname[..exeIdx], arg[..argIdx];
      if command[i] != SPACE && (flag == 0 || flag == 1) {
        NameChar(command, i, flag, word);
        if exeIdx >= NAME_MAX {
          return FileNameTooLong;
        }
        fname[exeIdx] := command[i];
        exeIdx := exeIdx + 1;
        assert fname[..exeIdx] == word + [command[i]];
        flag := 1;
      } else if command[i] == SPACE && flag == 1 {
        NameEnds(command, i, word);
        flag := 2;
      } else if command[i] != SPACE && (flag == 2 || flag == 3) {
        ArgChar(command, i, flag, word, text);
        arg[argIdx] := command[i];
        argIdx := argIdx + 1;
        assert arg[..argIdx] == text + [command[i]];
        flag := 3;
      } else if command[i] == SPACE && flag == 3 {
        ArgChar(command, i, flag, word, text);
        arg[argIdx] := command[i];
        argIdx := argIdx + 1;
        assert arg[..argIdx] == text + [command[i]];
        flag := 3;
      } else {
        SpaceSkipped(command, i, flag, word, text);
      }
      i := i + 1;
    }
    assert command[i..] == [];
    ParseEnd(flag, fname[..exeIdx], arg[..argIdx]);
    fname[exeIdx] := NUL;
    arg[argIdx] := NUL;
    assert fname[..][0..] == fname[..] && arg[..][0..] == arg[..];
    assert fname[..][0..exeIdx] == fname[..exeIdx] && arg[..][0..argIdx] == arg[..argIdx];
    CStrFrom(fname[..], 0, exeIdx);
    CStrFrom(arg[..], 0, argIdx);
    return Parsed(CStr(fname[..]), CStr(arg[..]));
  }

  lemma ParseStart(command: seq<byte>)
    ensures WordFrom(0, [], command[0..]) == FirstWord(command)
    ensures ArgFrom(0, [], command[0..]) == RestArg(command)
  {
    assert command[0..] == command;
  }

  lemma NameChar(command: seq<byte>, i: nat, flag: nat, word: seq<byte>)
    requires i < |command| && command[i] != SPACE && flag <= 1 && (flag == 0 ==> word == [])
    ensures WordFrom(1, word + [command[i]], command[i + 1..]) == WordFrom(flag, word, command[i..])
    ensures ArgFrom(1, [], command[i + 1..]) == ArgFrom(flag, [], command[i..])
    ensures |WordFrom(flag, word, command[i..])| > |word|
  {
    var c, rest, after := command[i], command[i..], command[i + 1..];
    SkipStep(command, i);
    IndexStep(command, i, SPACE);
    var k := IndexOf(after, SPACE);
    assert rest[..1 + k] == [c] + after[..k] && rest[1 + k..] == after[k..];
    assert word + ([c] + after[..k]) == (word + [c]) + after[..k];
  }

  lemma NameEnds(command: seq<byte>, i: nat, word: seq<byte>)
    requires i < |command| && command[i] == SPACE
    ensures WordFrom(2, word, command[i + 1..]) == WordFrom(1, word, command[i..])
    ensures ArgFrom(2, [], command[i + 1..]) == ArgFrom(1, [], command[i..])
  {
    SkipStep(command, i);
    IndexStep(command, i, SPACE);
    assert command[i..][0..] == command[i..];
  }

  lemma ArgChar(command: seq<byte>, i: nat, flag: nat, word: seq<byte>, arg: seq<byte>)
    requires i < |command| && (flag == 3 || (flag == 2 && command[i] != SPACE && arg == []))
    ensures WordFrom(3, word, command[i + 1..]) == WordFrom(flag, word, command[i..])
    ensures ArgFrom(3, arg + [command[i]], command[i + 1..]) == ArgFrom(flag, arg, command[i..])
    ensures |ArgFrom(flag, arg, command[i..])| > |arg| && WordFrom(flag, word, command[i..]) == word
  {
    SkipStep(command, i);
    assert arg + command[i..] == (arg + [command[i]]) + command[i + 1..];
  }

  lemma SpaceSkipped(command: seq<byte>, i: nat, flag: nat, word: seq<byte>, arg: seq<byte>)
    requires i < |command| && command[i] == SPACE && (flag == 0 || flag == 2)
    ensures WordFrom(flag, word, command[i + 1..]) == WordFrom(flag, word, command[i..])
    ensures ArgFrom(flag, arg, command[i + 1..]) == ArgFrom(flag, arg, command[i..])
  {
    SkipStep(command, i);
  }

  lemma ParseEnd(flag: nat, word: seq<byte>, arg: seq<byte>)
    requires flag <= 3 && (flag == 0 ==> word == []) && (flag < 3 ==> arg == [])
    ensures WordFrom(flag, word, []) == word && ArgFrom(flag, arg, []) == arg
  {
  }

  // ----- the emulation's splitter

  /** The word `w` stands at `at`, terminated. */
  ghost predicate WordAt(mem: seq<byte>, at: nat, w: seq<byte>) {
    at + |w| < |mem| && mem[at..at + |w|] == w && mem[at + |w|] == NUL && NulFree(w)
  }

  /** Writing NULs from `from` on leaves the words that end before it, or on a NUL there. */
  lemma WordKept(before: seq<byte>, after: seq<byte>, from: nat, at: nat, w: seq<byte>)
    requires |before| == |after| && forall k :: 0 <= k < |after| ==> after[k] == before[k] || (after[k] == NUL && from <= k)
    requires WordAt(before, at, w) && at + |w| <= from
    ensures WordAt(after, at, w)
  {
  }

  method ScanSpaces(buf: array<byte>, from: nat, end: nat) returns (scan: nat)
    requires from <= end < buf.Length && buf[end] == NUL
    ensures scan == from + LeadingSpaces(buf[from..end])
  {
    scan := from;
    while buf[scan] == SPACE
      invariant from <= scan <= end && scan - from + LeadingSpaces(buf[scan..end]) == LeadingSpaces(buf[from..end])
      decreases end - scan
    {
      assert buf[scan..end][0] == buf[scan] && buf[scan..end][1..] == buf[scan + 1..end];
      scan := scan + 1;
    }
    assert scan < end ==> buf[from..end][scan - from] == buf[scan] && buf[scan..end][0] == buf[scan];
  }

  method ScanWord(buf: array<byte>, from: nat, end: nat) returns (scan: nat)
    requires from <= end < buf.Length && buf[end] == NUL && NulFree(buf[from..end])
    ensures scan == from + WordEnd(buf[from..end])
  {
    scan := from;
    while buf[scan] != NUL && buf[scan] != SPACE && buf[scan] != NEWLINE
      invariant from <= scan <= end && scan - from + WordEnd(buf[scan..end]) == WordEnd(buf[from..end])
      decreases end - scan
    {
      assert buf[scan..end][0] == buf[scan] && buf[scan..end][1..] == buf[scan + 1..end];
      scan := scan + 1;
    }
    assert scan < end ==> buf[from..end][scan - from] == buf[scan] && buf[scan..end][0] == buf[scan];
  }

  /** The splitter of `ece391_execute`. The command stands at `buf + 2`, ends at `end`, and is cut
      up where it stands; `args` are the pointers handed to the new program after its name. */
  method Split(buf: array<byte>, end: nat, ghost command: seq<byte>) returns (args: seq<nat>)
    requires 2 <= end < buf.Length && buf[2..end] == command && buf[end] == NUL && NulFree(command)
    modifies buf
    ensures WordAt(buf[..], 2, command[..WordEnd(command)])
    ensures |args| == |EmulatedArgs(command)|
    ensures forall j :: 0 <= j < |args| ==> WordAt(buf[..], args[j], EmulatedArgs(command)[j])
    ensures forall k :: 0 <= k < 2 ==> buf[k] == old(buf[k])
  {
    var scan := ScanWord(buf, 2, end);
    ghost var k := WordEnd(command);
    args := [];
    assert buf[2..2 + k] == command[..k];
    assert k < |command| ==> command[k] == buf[2 + k];
    if buf[scan] != NUL {
      buf[scan] := NUL;
      scan := scan + 1;
      assert buf[scan..end] == command[k + 1..];
      SliceNulFree(command, k + 1, |command|);
      args := SplitArgs(buf, scan, end, command[..k]);
    }
  }

  /** One turn of the argument loop: find the next word, if there is one, and terminate it. */
  method NextArg(buf: array<byte>, from: nat, end: nat) returns (more: bool, at: nat, next: nat, ghost w: seq<byte>)
    requires from <= end < buf.Length && buf[end] == NUL && NulFree(buf[from..end])
    modifies buf
    ensures forall k :: 0 <= k < buf.Length ==> buf[k] == old(buf[k]) || (buf[k] == NUL && from <= k)
    ensures !more ==> Args(old(buf[from..end])) == []
    ensures more ==> from <= next <= end && buf[end] == NUL && NulFree(buf[next..end]) && at + |w| <= next && next > from
    ensures more ==> WordAt(buf[..], at, w) && Args(old(buf[from..end])) == [w] + Args(buf[next..end])
  {
    hide WordAt;
    hide NulFree;
    hide Args;
    hide WordEnd;
    hide SkipSpaces;
    ArgsStep(buf[from..end]);
    at := SkipTo(buf, from, end);
    ghost var t := buf[at..end];
    if buf[at] == NUL || buf[at] == NEWLINE {
      buf[at] := NUL;
      return false, at, at, [];
    }
    WordIsLonger(t);
    w := t[..WordEnd(t)];
    next := TerminateWord(buf, at, end);
    more := true;
  }

  method SkipTo(buf: array<byte>, from: nat, end: nat) returns (at: nat)
    requires from <= end < buf.Length && buf[end] == NUL && NulFree(buf[from..end])
    ensures from <= at <= end && buf[at..end] == SkipSpaces(buf[from..end])
    ensures NulFree(buf[at..end]) && (buf[at] == NUL <==> at == end)
    ensures at < end ==> buf[at] == buf[at..end][0] != SPACE
  {
    hide LeadingSpaces;
    at := ScanSpaces(buf, from, end);
    ghost var rest := buf[from..end];
    SliceNulFree(rest, at - from, |rest|);
    assert rest[at - from..] == buf[at..end];
    assert at < end ==> buf[at] == buf[at..end][0] == rest[at - from];
  }

  /** Walk to the end of the word at `at` and put a NUL there. */
  method TerminateWord(buf: array<byte>, at: nat, end: nat) returns (next: nat)
    requires at <= end < buf.Length && buf[end] == NUL && NulFree(buf[at..end])
    modifies buf
    ensures var t := old(buf[at..end]); var k := WordEnd(t);
      && at + k <= next <= end && buf[end] == NUL && NulFree(buf[next..end])
      && WordAt(buf[..], at, t[..k])
      && buf[next..end] == if k < |t| then t[k + 1..] else []
    ensures forall k :: 0 <= k < buf.Length ==> buf[k] == old(buf[k]) || (buf[k] == NUL && at <= k)
  {
    hide WordAt;
    hide NulFree;
    hide WordEnd;
    ghost var t := buf[at..end];
    NotNul(t);
    next := ScanWord(buf, at, end);
    ghost var k := WordEnd(t);
    assert forall j :: at <= j < end ==> buf[j] == t[j - at];
    SliceNulFree(t, if k < |t| then k + 1 else k, |t|);
    if buf[next] != NUL {
      buf[next] := NUL;
      next := next + 1;
    }
    SliceNulFree(t, 0, k);
    WordStands(buf[..], at, t[..k]);
    AfterWord(buf[..], at, t, k, end);
  }

  lemma ArgsStep(s: seq<byte>)
    ensures var t := SkipSpaces(s); var k := WordEnd(t);
      Args(s) == if t == [] || t[0] == NEWLINE then [] else [t[..k]] + Args(if k < |t| then t[k + 1..] else [])
  {
    hide WordEnd;
    hide LeadingSpaces;
  }

  lemma AfterWord(mem: seq<byte>, at: nat, t: seq<byte>, k: nat, end: nat)
    requires at + |t| == end < |mem| && k <= |t|
    requires forall j :: at + k < j < end ==> mem[j] == t[j - at]
    ensures k < |t| ==> mem[at + k + 1..end] == t[k + 1..]
    ensures k == |t| ==> mem[at + k..end] == []
  {
  }

  lemma NotNul(t: seq<byte>)
    requires NulFree(t)
    ensures forall k :: 0 <= k < |t| ==> t[k] != NUL
  {
  }

  lemma WordStands(mem: seq<byte>, at: nat, w: seq<byte>)
    requires at + |w| < |mem| && mem[at + |w|] == NUL && NulFree(w)
    requires forall k :: at <= k < at + |w| ==> mem[k] == w[k - at]
    ensures WordAt(mem, at, w)
  {
    hide NulFree;
    forall i | 0 <= i < |w| ensures mem[at..at + |w|][i] == w[i] {
      assert mem[at + i] == w[i];
    }
  }

  lemma WordIsLonger(t: seq<byte>)
    requires t != [] && t[0] != SPACE && t[0] != NEWLINE
    ensures WordEnd(t) > 0
  {
  }

  /** The argument loop. */
  method SplitArgs(buf: array<byte>, from: nat, end: nat, ghost name: seq<byte>) returns (args: seq<nat>)
    requires 2 <= from <= end < buf.Length && buf[end] == NUL && NulFree(buf[from..end])
    requires WordAt(buf[..], 2, name) && 2 + |name| < from
    modifies buf
    ensures WordAt(buf[..], 2, name)
    ensures forall k :: 0 <= k < from ==> buf[k] == old(buf[k])
    ensures |args| == |Args(old(buf[from..end]))|
    ensures forall j :: 0 <= j < |args| ==> WordAt(buf[..], args[j], Args(old(buf[from..end]))[j])
  {
    hide Args;
    hide WordAt;
    ghost var all := Args(buf[from..end]);
    ghost var got: seq<seq<byte>> := [];
    args := [];
    var scan := from;
    while true
      invariant from <= scan <= end && buf[end] == NUL && NulFree(buf[scan..end])
      invariant WordAt(buf[..], 2, name)
      invariant forall k :: 0 <= k < from ==> buf[k] == old(buf[k])
      invariant |args| == |got| && got + Args(buf[scan..end]) == all
      invariant forall j :: 0 <= j < |args| ==> args[j] + |got[j]| <= scan && WordAt(buf[..], args[j], got[j])
      decreases end - scan
    {
      ghost var before := buf[..];
      var more, at, next, w := NextArg(buf, scan, end);
      WordKept(before, buf[..], scan, 2, name);
      forall j | 0 <= j < |args| ensures WordAt(buf[..], args[j], got[j]) {
        WordKept(before, buf[..], scan, args[j], got[j]);
      }
      if !more {
        assert got == all;
        return;
      }
      args, got, scan := args + [at], got + [w], next;
    }
  }

  lemma {:induction false} ArgsFit(s: seq<byte>)
    ensures 2 * |Args(s)| <= |s| + 1
    decreases |s|
  {
    hide Args;
    hide WordEnd;
    var t := SkipSpaces(s);
    ArgsStep(s);
    if t != [] && t[0] != NEWLINE {
      var k := WordEnd(t);
      WordIsLonger(t);
      ArgsFit(if k < |t| then t[k + 1..] else []);
    }
  }

  /** What becomes of a command in the emulation: refused, or handed to a new process as a path
      and its arguments. */
  datatype Launch = Refused | Launched(path: seq<byte>, args: seq<seq<byte>>)

  const SLASH: byte := 47
  const EMULATED_LEN := 1023

  /** `ece391_execute` up to the fork. The new process gets a copy of every string. */
  method EmulatedExecute(command: seq<byte>) returns (r: Launch)
    requires NulFree(command)
    ensures r == if |command| > EMULATED_LEN then Refused
                 else Launched([46, 47] + command[..WordEnd(command)], EmulatedArgs(command))
  {
    hide EmulatedArgs;
    hide WordEnd;
    hide WordAt;
    if |command| > EMULATED_LEN {
      return Refused;
    }
    var buf := new byte[EMULATED_LEN + 3];
    buf[0], buf[1] := DOT, SLASH;
    CopyText(buf, 2, command);
    SliceIs(buf, 2, command);
    var args := Split(buf, 2 + |command|, command);
    ghost var word := command[..WordEnd(command)];
    EmulatedArgsFit(command);
    assert |args| + 2 <= EMULATED_LEN + 1;   // the pointer array holds them and its null
    PathStands(buf[..], word);
    var path := ReadText(buf, 0, 2 + |word|, [DOT, SLASH] + word);
    var strings := ReadTexts(buf, args, EmulatedArgs(command));
    return Launched(path, strings);
  }

  method ReadTexts(buf: array<byte>, args: seq<nat>, ghost words: seq<seq<byte>>) returns (strings: seq<seq<byte>>)
    requires |args| == |words| && forall j :: 0 <= j < |args| ==> WordAt(buf[..], args[j], words[j])
    ensures strings == words
  {
    hide WordAt;
    strings := [];
    var j := 0;
    while j < |args|
      invariant j <= |args| && strings == words[..j]
    {
      WordStops(buf[..], args[j], words[j]);
      var text := ReadText(buf, args[j], args[j] + |words[j]|, words[j]);
      strings := strings + [text];
      j := j + 1;
    }
  }

  lemma EmulatedArgsFit(command: seq<byte>)
    ensures 2 * |EmulatedArgs(command)| <= |command|
  {
    hide Args;
    hide WordEnd;
    var k := WordEnd(command);
    if k < |command| { ArgsFit(command[k + 1..]); }
  }

  lemma WordStops(mem: seq<byte>, at: nat, w: seq<byte>)
    requires WordAt(mem, at, w)
    ensures at + |w| < |mem| && mem[at..at + |w|] == w && mem[at + |w|] == NUL && NulFree(w)
  {
  }

  lemma PathStands(mem: seq<byte>, word: seq<byte>)
    requires WordAt(mem, 2, word) && mem[0] == DOT && mem[1] == SLASH
    ensures 2 + |word| < |mem| && mem[0..2 + |word|] == [DOT, SLASH] + word && mem[2 + |word|] == NUL
    ensures NulFree([DOT, SLASH] + word)
  {
    assert mem[0..2 + |word|] == [mem[0], mem[1]] + mem[2..2 + |word|];
  }

  /** The string at a pointer, copied. */
  method ReadText(buf: array<byte>, at: nat, ghost end: nat, ghost text: seq<byte>) returns (s: seq<byte>)
    requires at <= end < buf.Length && buf[..][at..end] == text && buf[end] == NUL && NulFree(text)
    ensures s == text
  {
    assert forall k :: at <= k < end ==> buf[k] == text[k - at];
    NotNul(text);
    s := [];
    var i := at;
    while buf[i] != NUL
      invariant at <= i <= end && s == text[..i - at]
      decreases end - i
    {
      s := s + [buf[i]];
      i := i + 1;
    }
  }

  // ----- the emulation's joiner

  /** `ece391_getargs`. `args` are the strings of `argv[1..]`. The copy of an argument writes its
      terminator too, so a call that fails may put a NUL just behind the buffer. */
  method JoinArgs(args: seq<seq<byte>>, mem: array<byte>, buf: nat, nbytes: int) returns (r: int)
    requires forall j :: 0 <= j < |args| ==> NulFree(args[j])
    requires buf + Max(nbytes, 0) < mem.Length
    modifies mem
    ensures r == if |Join(args)| < nbytes then 0 else -1
    ensures r == 0 ==> mem[buf..buf + |Join(args)|] == Join(args) && mem[buf + |Join(args)|] == NUL
    ensures forall k :: 0 <= k < mem.Length && !(buf <= k <= buf + Max(nbytes, 0)) ==> mem[k] == old(mem[k])
    ensures r == 0 ==> forall k :: buf + |Join(args)| < k < mem.Length ==> mem[k] == old(mem[k])
  {
    hide Join;
    ghost var done: seq<byte> := [];
    var idx, cur, left := 0, buf, nbytes;
    JoinWhole(args);
    while idx < |args|
      invariant idx <= |args| && (idx == |args| ==> args == [])
      invariant cur == buf + |done| && left == nbytes - |done| && |done| <= Max(nbytes, 0)
      invariant forall k :: buf <= k < cur ==> mem[k] == done[k - buf]
      invariant Join(args) == done + Join(args[idx..])
      invariant forall k :: 0 <= k < mem.Length && !(buf <= k <= cur) ==> mem[k] == old(mem[k])
    {
      JoinFrom(args, idx);
      var len := |args[idx]|;
      if len > left {
        return -1;
      }
      CopyText(mem, cur, args[idx]);
      done := done + args[idx];
      cur, left := cur + len, left - len;
      idx := idx + 1;
      if idx >= |args| {
        break;
      }
      if left < 1 {
        return -1;
      }
      mem[cur] := SPACE;
      done := done + [SPACE];
      cur, left := cur + 1, left - 1;
    }
    if left < 1 {
      return -1;
    }
    mem[cur] := NUL;
    assert Join(args) == done;
    return 0;
  }

  lemma JoinWhole(args: seq<seq<byte>>)
    ensures Join(args) == [] + Join(args[0..]) && Join([]) == []
  {
    assert args[0..] == args;
  }

  lemma JoinFrom(args: seq<seq<byte>>, idx: nat)
    requires idx < |args|
    ensures idx + 1 == |args| ==> Join(args[idx..]) == args[idx]
    ensures idx + 1 < |args| ==> forall done: seq<byte> ::
      done + Join(args[idx..]) == (done + args[idx] + [SPACE]) + Join(args[idx + 1..])
  {
    assert args[idx..][1..] == args[idx + 1..];
  }

  /** `ece391_strcpy` */
  method CopyText(mem: array<byte>, at: nat, text: seq<byte>)
    requires NulFree(text) && at + |text| < mem.Length
    modifies mem
    ensures forall k :: at <= k < at + |text| ==> mem[k] == text[k - at]
    ensures mem[at + |text|] == NUL
    ensures forall k :: 0 <= k < mem.Length && !(at <= k <= at + |text|) ==> mem[k] == old(mem[k])
  {
    var i := 0;
    while i < |text|
      invariant i <= |text|
      invariant forall k :: at <= k < at + i ==> mem[k] == text[k - at]
      invariant forall k :: 0 <= k < mem.Length && !(at <= k < at + i) ==> mem[k] == old(mem[k])
    {
      mem[at + i] := text[i];
      i := i + 1;
    }
    mem[at + i] := NUL;
  }

  // ----- the kernel's getargs

  /** `getargs` on the argument `execute` stored. */
  method GetArgs(arg: seq<byte>, buf: array<byte>, nbytes: nat) returns (r: int)
    requires NulFree(arg) && nbytes <= buf.Length
    modifies buf
    ensures r == if arg == [] then -1 else 0
    ensures arg != [] ==> buf[..nbytes] == StrncpyField(arg, nbytes)
    ensures nbytes > |arg| > 0 ==> buf[..|arg|] == arg && buf[|arg|] == NUL
    ensures forall k :: nbytes <= k < buf.Length ==> buf[k] == old(buf[k])
  {
    if arg == [] {
      return -1;
    }
    IndexOfIs(arg + [NUL], NUL, |arg|);
    IndexOfIs(arg, NUL, |arg|);
    Strncpy(buf, 0, arg + [NUL], nbytes);
    return 0;
  }

  // ----- the two agree

  predicate NewlineFree(s: seq<byte>) {
    NEWLINE !in s
  }

  /** No space at the end and never two in a row. */
  ghost predicate SingleSpaced(r: seq<byte>) {
    (r != [] ==> r[|r| - 1] != SPACE) &&
    forall i :: 0 <= i < |r| - 1 && r[i] == SPACE ==> r[i + 1] != SPACE
  }

  ghost predicate IsWord(w: seq<byte>) {
    w != [] && SPACE !in w
  }

  lemma {:induction false} WordEndIsIndex(s: seq<byte>)
    requires NewlineFree(s)
    ensures WordEnd(s) == IndexOf(s, SPACE)
  {
    var n := WordEnd(s);
    assert forall i :: 0 <= i < n ==> s[i] in s;
    IndexOfIs(s, SPACE, n);
  }

  lemma {:induction false} ArgsAreWords(s: seq<byte>)
    requires NewlineFree(s)
    ensures forall j :: 0 <= j < |Args(s)| ==> IsWord(Args(s)[j])
    decreases |s|
  {
    hide Args;
    hide WordEnd;
    var t := SkipSpaces(s);
    ArgsStep(s);
    if t != [] {
      assert t[0] in s;
      var k := WordEnd(t);
      WordIsLonger(t);
      ArgsAreWords(if k < |t| then t[k + 1..] else []);
    }
  }

  lemma {:induction false} JoinSingleSpaced(words: seq<seq<byte>>)
    requires forall j :: 0 <= j < |words| ==> IsWord(words[j])
    ensures SingleSpaced(Join(words))
    ensures words != [] ==> Join(words) != [] && Join(words)[0] != SPACE
  {
    if |words| == 1 {
      assert forall i :: 0 <= i < |words[0]| ==> words[0][i] in words[0];
    } else if |words| > 1 {
      var w, rest := words[0], Join(words[1..]);
      JoinSingleSpaced(words[1..]);
      assert forall i :: 0 <= i < |w| ==> w[i] in w;
      var all := w + [SPACE] + rest;
      forall i | 0 <= i < |all| - 1 && all[i] == SPACE ensures all[i + 1] != SPACE {
        assert i >= |w|;
        if i > |w| { assert all[i] == rest[i - |w| - 1] && all[i + 1] == rest[i - |w|]; }
      }
    }
  }

  /** `Args` on a text with no leading space. */
  lemma ArgsPlain(r: seq<byte>)
    requires NewlineFree(r) && (r != [] ==> r[0] != SPACE)
    ensures LeadingSpaces(r) == 0
    ensures r == [] ==> Args(r) == []
    ensures r != [] ==> var k := WordEnd(r);
      0 < k && Args(r) == [r[..k]] + Args(if k < |r| then r[k + 1..] else []) && (k < |r| ==> r[k] == SPACE)
  {
    hide Args;
    hide WordEnd;
    ArgsStep(r);
    assert r[0..] == r;
    if r != [] {
      assert r[0] in r;
      var k := WordEnd(r);
      WordIsLonger(r);
      assert k < |r| ==> r[k] in r;
    }
  }

  lemma AfterSpace(r: seq<byte>, k: nat)
    requires NewlineFree(r) && SingleSpaced(r) && k < |r| && r[k] == SPACE
    ensures k + 1 < |r| && r[k + 1] != SPACE
    ensures NewlineFree(r[k + 1..]) && SingleSpaced(r[k + 1..])
  {
    var rest := r[k + 1..];
    assert rest != [];
    forall i | 0 <= i < |rest| - 1 && rest[i] == SPACE ensures rest[i + 1] != SPACE {
      assert r[i + k + 1] == SPACE;
    }
  }

  lemma {:induction false} JoinArgsOfSingleSpaced(r: seq<byte>)
    requires NewlineFree(r) && SingleSpaced(r) && (r != [] ==> r[0] != SPACE)
    ensures Join(Args(r)) == r
    decreases |r|
  {
    hide Args;
    hide WordEnd;
    hide LeadingSpaces;
    hide Join;
    hide SingleSpaced;
    hide NewlineFree;
    ArgsPlain(r);
    JoinCons(r, []);
    if r != [] {
      var k := WordEnd(r);
      if k < |r| {
        AfterSpace(r, k);
        var rest := r[k + 1..];
        ArgsPlain(rest);
        JoinArgsOfSingleSpaced(rest);
        JoinCons(r[..k], Args(rest));
        assert r == r[..k] + [SPACE] + rest;
      } else {
        assert r[..k] == r;
        ArgsStep([]);
      }
    }
  }

  lemma JoinCons(w: seq<byte>, words: seq<seq<byte>>)
    ensures Join([]) == []
    ensures Join([w] + words) == if words == [] then w else w + [SPACE] + Join(words)
  {
    assert ([w] + words)[1..] == words;
  }

  lemma ArgsSkip(s: seq<byte>)
    ensures Args(SkipSpaces(s)) == Args(s)
  {
    hide Args;
    var t := SkipSpaces(s);
    ArgsStep(s);
    ArgsStep(t);
    assert LeadingSpaces(t) == 0;
    hide LeadingSpaces;
    assert t[0..] == t;
  }

  /** The emulation sees the argument string the kernel sees, cut into words. */
  lemma EmulatedArgsOfRest(command: seq<byte>)
    requires NewlineFree(command) && command != [] && command[0] != SPACE
    ensures EmulatedArgs(command) == Args(RestArg(command))
    ensures NewlineFree(RestArg(command)) && (RestArg(command) != [] ==> RestArg(command)[0] != SPACE)
  {
    hide Args;
    hide WordEnd;
    WordEndIsIndex(command);
    assert LeadingSpaces(command) == 0 && command[0..] == command;
    var k := IndexOf(command, SPACE);
    hide IndexOf;
    hide LeadingSpaces;
    ArgsSkip(command[k..]);
    if k < |command| {
      SkipStep(command, k);
      ArgsSkip(command[k + 1..]);
    } else {
      assert command[k..] == [];
      ArgsStep([]);
    }
  }

  /** Splitting and joining an argument text gives it back if and only if its words are apart by
      single spaces and no space trails. */
  lemma SameText(command: seq<byte>)
    requires NewlineFree(command) && command != [] && command[0] != SPACE
    ensures Join(EmulatedArgs(command)) == RestArg(command) <==> SingleSpaced(RestArg(command))
  {
    EmulatedArgsOfRest(command);
    var r := RestArg(command);
    ArgsAreWords(r);
    JoinSingleSpaced(Args(r));
    if SingleSpaced(r) {
      JoinArgsOfSingleSpaced(r);
    }
  }

  /** What a program finds out about its argument: it was never started, `getargs` failed, or its
      buffer holds a terminated text, or is full without a terminator. */
  datatype Delivery = NotStarted | NoText | Text(text: seq<byte>) | Unterminated(text: seq<byte>)

  /** The reading of a return value and of the buffer that came with it. */
  function Seen(r: int, field: seq<byte>): Delivery {
    if r != 0 then NoText
    else if IndexOf(field, NUL) < |field| then Text(CStr(field))
    else Unterminated(field)
  }

  function KernelDelivery(command: seq<byte>, nbytes: nat): Delivery
    requires ArgFits(command)
  {
    if |FirstWord(command)| > NAME_MAX then NotStarted
    else
      var arg := RestArg(command);
      if arg == [] then NoText
      else if |arg| < nbytes then Text(arg)
      else Unterminated(arg[..nbytes])
  }

  function EmulatedDelivery(command: seq<byte>, nbytes: nat): Delivery {
    if |command| > EMULATED_LEN then NotStarted
    else
      var text := Join(EmulatedArgs(command));
      if |text| < nbytes then Text(text) else NoText
  }

  /** A command through the kernel: `execute` parses it, the program calls `getargs`. */
  method DeliverByKernel(command: seq<byte>, buf: array<byte>, nbytes: nat) returns (started: bool, r: int)
    requires NulFree(command) && ArgFits(command) && nbytes <= buf.Length
    modifies buf
    ensures (if started then Seen(r, buf[..nbytes]) else NotStarted) == KernelDelivery(command, nbytes)
  {
    hide FirstWord;
    hide RestArg;
    var parsed := Parse(command);
    if parsed.FileNameTooLong? {
      return false, -1;
    }
    RestNulFree(command);
    r := GetArgs(parsed.arg, buf, nbytes);
    if parsed.arg != [] { FieldSeen(parsed.arg, nbytes); }
    return true, r;
  }

  /** A command through the emulation: its `execute` splits it, the program's `getargs` joins. */
  method DeliverByEmulation(command: seq<byte>, mem: array<byte>, buf: nat, nbytes: nat) returns (started: bool, r: int)
    requires NulFree(command) && buf + nbytes < mem.Length
    modifies mem
    ensures (if started then Seen(r, mem[buf..buf + nbytes]) else NotStarted) == EmulatedDelivery(command, nbytes)
  {
    hide EmulatedArgs;
    hide WordEnd;
    hide Join;
    var launch := EmulatedExecute(command);
    if launch.Refused? {
      return false, -1;
    }
    EmulatedNulFree(command);
    r := JoinArgs(launch.args, mem, buf, nbytes);
    if r == 0 {
      JoinNulFree(launch.args);
      TextSeen(mem[buf..buf + nbytes], Join(launch.args));
    }
    return true, r;
  }

  lemma RestNulFree(command: seq<byte>)
    requires NulFree(command)
    ensures NulFree(RestArg(command))
  {
    hide LeadingSpaces;
    hide IndexOf;
    var t := SkipSpaces(command);
    SliceNulFree(command, LeadingSpaces(command), |command|);
    SliceNulFree(t, IndexOf(t, SPACE), |t|);
    var u := t[IndexOf(t, SPACE)..];
    SliceNulFree(u, LeadingSpaces(u), |u|);
  }

  lemma FieldSeen(arg: seq<byte>, nbytes: nat)
    requires NulFree(arg) && arg != []
    ensures Seen(0, StrncpyField(arg, nbytes)) == if |arg| < nbytes then Text(arg) else Unterminated(arg[..nbytes])
  {
    var field := StrncpyField(arg, nbytes);
    IndexOfIs(arg, NUL, |arg|);
    IndexOfIs(field, NUL, Min(|arg|, nbytes));
    if |arg| >= nbytes { assert field == arg[..nbytes]; }
  }

  lemma TextSeen(field: seq<byte>, text: seq<byte>)
    requires NulFree(text) && |text| < |field| && field[..|text|] == text && field[|text|] == NUL
    ensures Seen(0, field) == Text(text)
  {
    assert forall k :: 0 <= k < |text| ==> field[k] == text[k];
    IndexOfIs(field, NUL, |text|);
  }

  lemma {:induction false} ArgsNulFree(s: seq<byte>)
    requires NulFree(s)
    ensures forall j :: 0 <= j < |Args(s)| ==> NulFree(Args(s)[j])
    decreases |s|
  {
    hide Args;
    hide WordEnd;
    hide NulFree;
    hide LeadingSpaces;
    var t := SkipSpaces(s);
    SliceNulFree(s, LeadingSpaces(s), |s|);
    ArgsStep(s);
    if t != [] && t[0] != NEWLINE {
      var k := WordEnd(t);
      SliceNulFree(t, if k < |t| then k + 1 else k, |t|);
      SliceNulFree(t, 0, k);
      WordIsLonger(t);
      if k == |t| { ArgsStep([]); } else { ArgsNulFree(t[k + 1..]); }
    }
  }

  lemma EmulatedNulFree(command: seq<byte>)
    requires NulFree(command)
    ensures forall j :: 0 <= j < |EmulatedArgs(command)| ==> NulFree(EmulatedArgs(command)[j])
  {
    var k := WordEnd(command);
    if k < |command| {
      SliceNulFree(command, k + 1, |command|);
      ArgsNulFree(command[k + 1..]);
    }
  }

  lemma {:induction false} JoinNulFree(words: seq<seq<byte>>)
    requires forall j :: 0 <= j < |words| ==> NulFree(words[j])
    ensures NulFree(Join(words))
  {
    if |words| > 1 {
      JoinNulFree(words[1..]);
    }
  }

  /** For every newline-free command that starts with its program word and every count, kernel and
      emulation deliver the same - a start refused, a failure, or one and the same terminated text -
      if and only if both refuse the command for its length, or neither does and there is a
      single-spaced text that leaves room for its terminator (or no text, and no room for one).
      The kernel's side is what the code does for arguments that fit its array. */
  lemma DeliverSame(command: seq<byte>, nbytes: nat)
    requires NewlineFree(command) && command != [] && command[0] != SPACE && ArgFits(command)
    ensures KernelDelivery(command, nbytes) == EmulatedDelivery(command, nbytes) <==>
      var arg := RestArg(command);
      if |FirstWord(command)| > 32 || |command| > 1023
      then |FirstWord(command)| > 32 && |command| > 1023
      else if arg == [] then nbytes == 0
      else SingleSpaced(arg) && |arg| < nbytes
  {
    hide EmulatedArgs;
    hide RestArg;
    hide FirstWord;
    SameText(command);
    NoTextJoins(command);
  }

  lemma NoTextJoins(command: seq<byte>)
    requires NewlineFree(command) && command != [] && command[0] != SPACE
    ensures RestArg(command) == [] ==> Join(EmulatedArgs(command)) == []
  {
    EmulatedArgsOfRest(command);
    hide EmulatedArgs;
    ArgsStep([]);
  }

  // ----- the two decompositions, from the other side

  function Spaces(n: nat): (s: seq<byte>)
    ensures |s| == n
  {
    seq(n, _ => SPACE)
  }

  lemma {:induction false} LeadingIs(n: nat, rest: seq<byte>)
    requires rest == [] || rest[0] != SPACE
    ensures LeadingSpaces(Spaces(n) + rest) == n && SkipSpaces(Spaces(n) + rest) == rest
  {
    if n > 0 {
      assert (Spaces(n) + rest)[1..] == Spaces(n - 1) + rest;
      LeadingIs(n - 1, rest);
    }
  }

  /** However a command is put together from spaces, a word, spaces and an argument, the parser's
      word and argument are those: the argument starts at its first character that is no space and
      keeps everything behind it. */
  lemma CommandParts(a: nat, word: seq<byte>, b: nat, arg: seq<byte>)
    requires word != [] && 32 !in word
    requires arg != [] ==> arg[0] != 32 && b > 0
    ensures var command := Spaces(a) + word + Spaces(b) + arg; FirstWord(command) == word && RestArg(command) == arg
  {
    hide LeadingSpaces;
    var rest := Spaces(b) + arg;
    assert Spaces(a) + word + Spaces(b) + arg == Spaces(a) + (word + rest);
    assert word[0] in word;
    LeadingIs(a, word + rest);
    assert forall i :: 0 <= i < |word| ==> (word + rest)[i] == word[i] && word[i] in word;
    IndexOfIs(word + rest, SPACE, |word|);
    assert (word + rest)[..|word|] == word && (word + rest)[|word|..] == rest;
    LeadingIs(b, arg);
  }

  /** Splitting what was joined gives the words back. */
  lemma {:induction false} ArgsOfJoin(words: seq<seq<byte>>)
    requires forall j :: 0 <= j < |words| ==> IsWord(words[j]) && NewlineFree(words[j])
    ensures Args(Join(words)) == words
  {
    hide Args;
    hide LeadingSpaces;
    hide WordEnd;
    if words == [] {
      ArgsStep([]);
    } else {
      var w, rest := words[0], words[1..];
      ArgsOfJoin(rest);
      assert words == [w] + rest;
      JoinCons(w, rest);
      FirstOfJoined(w, if rest == [] then [] else [SPACE] + Join(rest));
      if rest == [] {
        assert w + [] == w;
        ArgsStep([]);
      } else {
        assert w + [SPACE] + Join(rest) == w + ([SPACE] + Join(rest));
      }
    }
  }

  lemma FirstOfJoined(w: seq<byte>, more: seq<byte>)
    requires IsWord(w) && NewlineFree(w) && (more != [] ==> more[0] == SPACE)
    ensures Args(w + more) == [w] + Args(if more == [] then [] else more[1..])
  {
    hide Args;
    var t := w + more;
    assert forall i :: 0 <= i < |w| ==> t[i] == w[i] && w[i] in w;
    assert LeadingSpaces(t) == 0 && t[0..] == t;
    WordEndIs(t, |w|);
    ArgsStep(t);
    assert t[..|w|] == w;
    if more != [] { assert t[|w| + 1..] == more[1..]; }
  }

  /** A newline right behind a word separates it from what follows as a space does, and one where a
      word should begin ends the list. */
  lemma ArgsAtNewline(w: seq<byte>, more: seq<byte>)
    requires IsWord(w) && NewlineFree(w)
    ensures Args(w + [10] + more) == [w] + Args(more)
    ensures Args([10] + more) == []
  {
    hide Args;
    var t := w + [10] + more;
    assert forall i :: 0 <= i < |w| ==> t[i] == w[i] && w[i] in w;
    assert LeadingSpaces(t) == 0 && t[0..] == t;
    WordEndIs(t, |w|);
    ArgsStep(t);
    assert t[..|w|] == w && t[|w| + 1..] == more;
    assert LeadingSpaces([10] + more) == 0 && ([10] + more)[0..] == [10] + more;
    ArgsStep([10] + more);
  }

  lemma WordEndIs(t: seq<byte>, n: nat)
    requires n <= |t| && forall i :: 0 <= i < n ==> t[i] != SPACE && t[i] != NEWLINE
    requires n < |t| ==> t[n] == SPACE || t[n] == NEWLINE
    ensures WordEnd(t) == n
  {
    var m := WordEnd(t);
  }
}
