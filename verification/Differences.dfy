/** An input for every difference between the code and its evident intent. */
module Differences {
  import opened Bytes
  import opened FileSystem
  import opened Commands
  import Processes
  import ProcessLaws
  import PidAccounting
  import Loader
  import Descriptors
  import Grep
  import Screen
  import LineEditor
  import Blink
  import BlinkLaws

  const A: byte := 97
  const B: byte := 98
  const C: byte := 99
  const L: byte := 108
  const S: byte := 115
  const T: byte := 116
  const X: byte := 120

  function Repeat(c: byte, n: nat): (s: seq<byte>)
    ensures |s| == n
  {
    seq(n, _ => c)
  }

  // ----- processes

  lemma LongWord(img: Image, stack: seq<byte>)
    requires WellFormed(img)
    ensures Loader.RequestFor(img, Repeat(A, 33), stack) == Processes.TooLong
  {
    var w := Repeat(A, 33);
    IndexOfIs(w, SPACE, 33);
    assert w[0..] == w && w[..33] == w && LeadingSpaces(w) == 0;
  }

  /** The state once the first shell runs. */
  function FirstShell(): Processes.State {
    Processes.ExecuteSpec(Processes.Start(), Processes.Loads(true)).state
  }

  lemma FirstShellRuns()
    ensures ProcessLaws.Inv(FirstShell()) && ProcessLaws.Stack(FirstShell(), 0) == [0] && FirstShell().cur == 0
    ensures FirstShell().active == [true, false, false, false, false, false]
    ensures PidAccounting.Lost(FirstShell()) == {}
  {
    ProcessLaws.StartIsGood();
    ProcessLaws.ExecutePushes(Processes.Start(), Processes.Loads(true));
    PidAccounting.LostStep(Processes.Start(), ProcessLaws.ExecuteStep(Processes.Loads(true)));
    assert PidAccounting.Lost(Processes.Start()) == {};
  }

  /** A word of 33 letters typed at the first shell is refused, and costs the machine pid 1. */
  lemma LongWordLosesPid(img: Image, stack: seq<byte>)
    requires WellFormed(img)
    ensures var o := Processes.ExecuteSpec(FirstShell(), Loader.RequestFor(img, Repeat(A, 33), stack));
      o.pid == -1 && ProcessLaws.Inv(o.state) && PidAccounting.Lost(o.state) == {1}
  {
    hide FirstShell;
    FirstShellRuns();
    LongWord(img, stack);
    PidAccounting.LostStep(FirstShell(), ProcessLaws.ExecuteStep(Processes.TooLong));
  }

  function LongWords(n: nat): seq<ProcessLaws.Step> {
    seq(n, _ => ProcessLaws.ExecuteStep(Processes.TooLong))
  }

  lemma {:induction false} LongWordsLose(s: Processes.State, n: nat)
    requires ProcessLaws.Inv(s) && 0 < ProcessLaws.Depth(s, s.cur) < Processes.SLOTS
    requires |PidAccounting.Lost(s)| + n <= 5
    requires forall p :: 0 <= p < Processes.PIDS ==> s.active[p] ==> p == 0 || p in PidAccounting.Lost(s)
    ensures ProcessLaws.Runs(s, LongWords(n))
    ensures |PidAccounting.Lost(ProcessLaws.Run(s, LongWords(n)))| == |PidAccounting.Lost(s)| + n
    ensures ProcessLaws.Stack(ProcessLaws.Run(s, LongWords(n)), s.cur) == ProcessLaws.Stack(s, s.cur)
    ensures ProcessLaws.Run(s, LongWords(n)).cur == s.cur
    decreases n
  {
    hide PidAccounting.Lost;
    if n > 0 {
      var next := Processes.ExecuteSpec(s, Processes.TooLong).state;
      OneLongWord(s);
      assert LongWords(n)[1..] == LongWords(n - 1);
      LongWordsLose(next, n - 1);
    }
  }

  lemma OneLongWord(s: Processes.State)
    requires ProcessLaws.Inv(s) && 0 < ProcessLaws.Depth(s, s.cur) < Processes.SLOTS
    requires |PidAccounting.Lost(s)| < 5
    requires forall p :: 0 <= p < Processes.PIDS ==> s.active[p] ==> p == 0 || p in PidAccounting.Lost(s)
    ensures var next := Processes.ExecuteSpec(s, Processes.TooLong).state;
      && ProcessLaws.Inv(next) && next.cur == s.cur
      && ProcessLaws.Stack(next, s.cur) == ProcessLaws.Stack(s, s.cur)
      && |PidAccounting.Lost(next)| == |PidAccounting.Lost(s)| + 1
      && (forall p :: 0 <= p < Processes.PIDS ==> next.active[p] ==> p == 0 || p in PidAccounting.Lost(next))
  {
    var idle := Processes.LowestIdle(s.active, 0);
    ProcessLaws.ExecutePushes(s, Processes.TooLong);
    PidAccounting.LostStep(s, ProcessLaws.ExecuteStep(Processes.TooLong));
    SomeIdle(s);
    assert idle !in PidAccounting.Lost(s);
  }

  lemma SomeIdle(s: Processes.State)
    requires ProcessLaws.Inv(s) && |PidAccounting.Lost(s)| < 5
    requires forall p :: 0 <= p < Processes.PIDS ==> s.active[p] ==> p == 0 || p in PidAccounting.Lost(s)
    ensures Processes.LowestIdle(s.active, 0) < Processes.PIDS
  {
    if Processes.LowestIdle(s.active, 0) == Processes.PIDS {
      assert {1, 2, 3, 4, 5} <= PidAccounting.Lost(s) by {
        forall p | p in {1, 2, 3, 4, 5} ensures p in PidAccounting.Lost(s) { assert s.active[p]; }
      }
      PidAccounting.SubsetSize({1, 2, 3, 4, 5}, PidAccounting.Lost(s));
    }
  }

  /** The state after five such words. */
  ghost function Exhausted(): (s: Processes.State)
    ensures ProcessLaws.Inv(s)
  {
    FirstShellRuns();
    LongWordsLose(FirstShell(), 5);
    ProcessLaws.Run(FirstShell(), LongWords(5))
  }

  /** The first shell is still there then, and on no run can any process start a program again. */
  lemma FiveLongWords(steps: seq<ProcessLaws.Step>, req: Processes.Request)
    requires ProcessLaws.Runs(Exhausted(), steps)
    ensures ProcessLaws.Stack(Exhausted(), 0) == [0] && Exhausted().cur == 0
    ensures var s := ProcessLaws.Run(Exhausted(), steps);
      ProcessLaws.Depth(s, s.cur) > 0 ==> Processes.ExecuteSpec(s, req) == Processes.Outcome(s, -1)
  {
    hide FirstShell;
    hide ProcessLaws.Run;
    FirstShellRuns();
    LongWordsLose(FirstShell(), 5);
    var s := ProcessLaws.Run(Exhausted(), steps);
    if ProcessLaws.Depth(s, s.cur) > 0 {
      PidAccounting.FiveLostIsTheEnd(Exhausted(), steps, req);
    }
  }

  /** A program started by the shell that starts another one is not the parent of that one. */
  lemma GrandchildOfShell()
    ensures var s1 := Processes.ExecuteSpec(Processes.Start(), Processes.Loads(true)).state;
      var s2 := Processes.ExecuteSpec(s1, Processes.Loads(false)).state;
      var o := Processes.ExecuteSpec(s2, Processes.Loads(false));
      && ProcessLaws.Inv(s2) && ProcessLaws.Stack(s2, 0) == [0, 1] && !s2.shell[1]
      && o.pid == 2 && o.state.parent[2] == 0
  {
    var s0 := Processes.Start();
    ProcessLaws.StartIsGood();
    ProcessLaws.ExecutePushes(s0, Processes.Loads(true));
    var s1 := Processes.ExecuteSpec(s0, Processes.Loads(true)).state;
    assert s1.terminals[0] == Processes.Terminal([0, -1, -1, -1], 1, false);
    assert s1.lastShell[0] == 0;
    ProcessLaws.ExecutePushes(s1, Processes.Loads(false));
    var s2 := Processes.ExecuteSpec(s1, Processes.Loads(false)).state;
    assert s2.terminals[0].numProc == 2 && s2.lastShell[0] == 0;
  }

  // ----- loading

  const INODES := 17
  const BIG_DATA := 73728   // where the data blocks start, behind the boot block and 17 inodes
  const BIG_SIZE := 77824

  /** One program, named `a`: sixteen blocks that all are the same data block. */
  function BigByte(i: nat): byte {
    if i == 0 then 1                                   // one directory entry
    else if i == 4 then INODES
    else if i == 64 then A
    else if i == 96 then 2                             // a regular file, inode 0
    else if i == BLOCK + 2 then 1                      // of 0x10000 bytes
    else if BIG_DATA <= i < BIG_DATA + 4 then Loader.ELF[i - BIG_DATA]
    else 0
  }

  function BigProgram(): (img: Image)
    ensures |img| == BIG_SIZE && forall i :: 0 <= i < BIG_SIZE ==> img[i] == BigByte(i)
  {
    seq(BIG_SIZE, i requires 0 <= i < BIG_SIZE => BigByte(i))
  }

  lemma BigProgramWords(a: nat)
    requires a % 4 == 0 && a + 4 <= BIG_SIZE
    ensures Word(BigProgram(), 0) == 1 && Word(BigProgram(), 4) == INODES
    ensures Word(BigProgram(), BLOCK) == 0x1_0000
    ensures BLOCK < a < BIG_DATA ==> Word(BigProgram(), a) == 0
  {
    hide BigProgram;
  }

  lemma BigProgramIsWellFormed()
    ensures WellFormed(BigProgram())
    ensures |FileBytes(BigProgram(), 0)| == 0x1_0000
  {
    var img := BigProgram();
    BigProgramWords(0);
    forall inode: nat | inode < InodeCount(img) ensures WellFormedInode(img, inode) {
      BigProgramWords(InodeAddr(inode));
      forall k: nat | k * BLOCK < Length(img, inode) ensures BlockAddr(img, inode, k) + BLOCK <= |img| {
        assert inode == 0 && k < 16;
        BigProgramWords(InodeAddr(0) + 4 + 4 * k);
      }
    }
  }

  /** A program of exactly 64KB starts, and not one of its bytes is loaded. */
  lemma NothingLoaded(stack: seq<byte>)
    ensures WellFormed(BigProgram())
    ensures Loader.RequestFor(BigProgram(), [A], stack) == Processes.Loads(false)
    ensures Lookup(BigProgram(), [A]).Some? && Loader.Loaded(BigProgram(), Lookup(BigProgram(), [A]).value.inode) == []
  {
    hide BigProgram;
    hide Word;
    hide WellFormed;
    hide Lookup;
    hide Loader.ReadPart;
    BigProgramIsWellFormed();
    BigProgramEntry();
    BigProgramStarts();
    Loader.LongFileMagic(Loader.ReadPart(BigProgram(), 0), stack);
    WordAlone(A);
  }

  lemma WordAlone(c: byte)
    requires c != SPACE
    ensures FirstWord([c]) == [c]
  {
    IndexOfIs([c], SPACE, 1);
    assert [c][0..] == [c] && [c][..1] == [c] && LeadingSpaces([c]) == 0;
  }

  lemma BigProgramEntry()
    requires WellFormed(BigProgram())
    ensures Lookup(BigProgram(), [A]).Some? && Lookup(BigProgram(), [A]).value.inode == 0
  {
    var img := BigProgram();
    BigProgramWords(0);
    var field := img[EntryAddr(0)..];
    IndexOfIs(field[..NAME_LEN], NUL, 1);
    assert EntryName(img, 0) == [A];
    assert Word(img, EntryAddr(0) + NAME_LEN + 4) == 0;
  }

  lemma BigProgramData(b: nat)
    requires b < 4
    ensures BlockAddr(BigProgram(), 0, 0) == BIG_DATA && BigProgram()[BIG_DATA + b] == Loader.ELF[b]
  {
    hide BigProgram;
    hide Word;
    BigProgramWords(InodeAddr(0) + 4);
  }

  lemma BigProgramStarts()
    requires WellFormed(BigProgram()) && |FileBytes(BigProgram(), 0)| == 0x1_0000
    ensures Loader.ELF <= Loader.ReadPart(BigProgram(), 0) && |Loader.ReadPart(BigProgram(), 0)| == 0x1_0000
  {
    hide BigProgram;
    hide Word;
    hide WellFormed;
    hide FileBytes;
    hide BlockAddr;
    var img := BigProgram();
    BigProgramWords(0);
    forall b: nat | b < 4 ensures FileBytes(img, 0)[b] == Loader.ELF[b] {
      BigProgramData(b);
      FileByteAt(img, 0, 0, b);
    }
  }

  /** A directory with the entries "." and "rtc", both of inode 0, which is empty. */
  function SmallByte(i: nat): byte {
    if i == 0 then 2
    else if i == 4 then 1
    else if i == 64 then DOT
    else if i == 96 then 1
    else if i == 128 then 114
    else if i == 129 then T
    else if i == 130 then C
    else 0
  }

  const SMALL_SIZE := 8192

  function SmallImage(): (img: Image)
    ensures |img| == SMALL_SIZE && forall i :: 0 <= i < SMALL_SIZE ==> img[i] == SmallByte(i)
  {
    seq(SMALL_SIZE, i requires 0 <= i < SMALL_SIZE => SmallByte(i))
  }

  lemma SmallWords()
    ensures Word(SmallImage(), 0) == 2 && Word(SmallImage(), 4) == 1 && Word(SmallImage(), BLOCK) == 0
    ensures Word(SmallImage(), 64 + 36) == 0 && Word(SmallImage(), 128 + 32) == 0
  {
    hide SmallImage;
  }

  lemma SmallImageIsWellFormed()
    ensures WellFormed(SmallImage()) && DirCount(SmallImage()) == 2 && FileBytes(SmallImage(), 0) == []
    ensures EntryInode(SmallImage(), 0) == 0 && EntryType(SmallImage(), 1) == 0
  {
    hide SmallImage;
    hide SmallByte;
    hide Word;
    SmallWords();
  }

  lemma SmallNames()
    requires WellFormed(SmallImage()) && DirCount(SmallImage()) == 2
    ensures Names(SmallImage()) == [[DOT], Descriptors.RTC_NAME]
  {
    hide SmallImage;
    hide Word;
    hide WellFormed;
    var img := SmallImage();
    var dot, rtc := img[EntryAddr(0)..][..NAME_LEN], img[EntryAddr(1)..][..NAME_LEN];
    IndexOfIs(dot, NUL, 1);
    IndexOfIs(rtc, NUL, 3);
    assert dot[..1] == [DOT];
    assert rtc[..3] == Descriptors.RTC_NAME;
    assert EntryName(img, 0) == [DOT] && EntryName(img, 1) == Descriptors.RTC_NAME;
  }

  /** The command "." reads nothing. It starts a program when the stack still holds the magic
      number of the last one. */
  lemma EmptyFileStarts(stack: seq<byte>)
    requires Loader.ELF <= stack
    ensures WellFormed(SmallImage())
    ensures Loader.RequestFor(SmallImage(), [DOT], stack) == Processes.Loads(false)
    ensures Lookup(SmallImage(), [DOT]).Some? && Loader.ReadPart(SmallImage(), Lookup(SmallImage(), [DOT]).value.inode) == []
  {
    hide Word;
    SmallImageIsWellFormed();
    SmallNames();
    hide SmallImage;
    hide WellFormed;
    hide Names;
    WordAlone(DOT);
    assert First([[DOT], Descriptors.RTC_NAME], [DOT], 0) == 0;
    assert Loader.Overlaid([], stack) == stack;
  }

  /** With 2..7 all open, opening the clock succeeds with the number 8. */
  lemma ClockOnFullTable(t: Descriptors.Table, behind: Descriptors.Fd)
    requires Descriptors.TableOk(t) && forall fd :: Descriptors.FIRST_FD <= fd < Descriptors.TABLE_SIZE ==> t[fd].flags == 1
    requires behind.flags == 0
    ensures WellFormed(SmallImage())
    ensures Descriptors.OpenSpec(SmallImage(), t, Descriptors.RTC_NAME, behind) == Descriptors.CallResult(t, 8)
  {
    SmallImageIsWellFormed();
    SmallNames();
    hide SmallImage;
    hide WellFormed;
    hide Names;
    assert First([[DOT], Descriptors.RTC_NAME], Descriptors.RTC_NAME, 0) == 1;
  }

  // ----- grep

  /** A line of 1025 matching characters is reported as two lines. */
  lemma LongLineSplit()
    ensures var f := Repeat(X, 1025);
      && Grep.Matching(Lines(f), [X]) == [f]
      && Grep.Matching(Grep.Segments(f), [X]) == [Repeat(X, 1024), [X]]
  {
    var f := Repeat(X, 1025);
    IndexOfIs(f, NEWLINE, 1025);
    IndexOfIs([X], NEWLINE, 1);
    assert Grep.OccursAt(f, [X], 0) && Grep.OccursAt(Repeat(X, 1024), [X], 0) && Grep.OccursAt([X], [X], 0);
    assert f[..1025] == f && f[..1024] == Repeat(X, 1024) && f[1024..] == [X];
    assert Grep.Head(f) == Repeat(X, 1024) && Grep.Tail(f) == [X];
    assert Grep.Head([X]) == [X] && Grep.Tail([X]) == [];
    Grep.LinesStep(f, [X]);
    Grep.LinesStep([X], [X]);
    Grep.NoLines();
    assert Grep.FirstLine(f) == f && Grep.AfterLine(f) == [];
  }

  // ----- the line editor

  /** A terminal on which the shell has just written its first prompt. */
  function Booted(page: seq<byte>): LineEditor.Term
    requires |page| == Screen.PAGE
  {
    LineEditor.Term(Screen.PutAll(Screen.Display(Screen.Cleared(page), 0, 0), LineEditor.PROMPT),
                    seq(LineEditor.KB_SIZE, _ => NUL), 0)
  }

  lemma BootedIsFresh(page: seq<byte>)
    requires |page| == Screen.PAGE
    ensures var t := Booted(page);
      LineEditor.TermOk(t) && t.index == 0 && t.display.x == 7 && t.kb == LineEditor.Fresh().behind
  {
    Screen.PutInRow(Screen.Display(Screen.Cleared(page), 0, 0), LineEditor.PROMPT);
  }

  /** With exactly 80 characters typed a backspace does nothing. */
  lemma BackspaceStops(page: seq<byte>)
    requires |page| == Screen.PAGE
    ensures var t := LineEditor.PressAll(Booted(page), LineEditor.Typed(Repeat(A, 80)));
      t.index == 80 && LineEditor.EraseKey(t, 7) == t
  {
    hide LineEditor.PressAll;
    hide LineEditor.EraseKey;
    BootedIsFresh(page);
    var m := Repeat(A, 80);
    LineEditor.EditorHolds(Booted(page), LineEditor.Typed(m));
    LineEditor.TypedEdits(LineEditor.Fresh(), m, 7);
    var t := LineEditor.PressAll(Booted(page), LineEditor.Typed(m));
    LineEditor.BackspaceMeetsIntent(t, LineEditor.Line(m, LineEditor.Fresh().behind[80..]), 7, 7);
  }

  /** 73 characters reach the end of the first row. A backspace leaves 72 on the screen, and the
      shell gets all 73. */
  lemma CharacterLeftBehind(page: seq<byte>)
    requires |page| == Screen.PAGE
    ensures var t := LineEditor.PressAll(Booted(page), LineEditor.Typed(Repeat(A, 73)));
      var r := LineEditor.EraseKey(t, 7);
      r.index == 72 && LineEditor.ShellCommand(r.kb) == Repeat(A, 73)
  {
    hide LineEditor.PressAll;
    hide LineEditor.EraseKey;
    hide LineEditor.Edited;
    hide LineEditor.CellsHold;
    hide LineEditor.ShellCommand;
    hide Booted;
    BootedIsFresh(page);
    var m, nuls := Repeat(A, 73), LineEditor.Fresh().behind;
    LineEditor.EditorHolds(Booted(page), LineEditor.Typed(m));
    LineEditor.TypedEdits(LineEditor.Fresh(), m, 7);
    var t, line := LineEditor.PressAll(Booted(page), LineEditor.Typed(m)), LineEditor.Line(m, nuls[73..]);
    LineEditor.EraseHolds(t, line, 7, 7);
    var kb := LineEditor.EraseKey(t, 7).kb;
    assert LineEditor.EditStep(line, LineEditor.Backspace(7), 7) == LineEditor.Pop(line, true);
    assert kb == m[..72] + ([A] + ([NUL] + nuls[73..][1..]));
    CommandAt(kb, m);
  }

  lemma CommandAt(kb: seq<byte>, m: seq<byte>)
    requires |kb| == LineEditor.KB_SIZE && |m| < LineEditor.KB_SIZE - 1 && NulFree(m)
    requires forall i :: 0 <= i < |m| ==> kb[i] == m[i]
    requires kb[|m|] == NUL
    ensures LineEditor.ShellCommand(kb) == m
  {
    assert kb[..|m|] == m && kb == m + kb[|m|..];
    LineEditor.CommandIs(kb, LineEditor.Line(m, kb[|m|..]));
  }

  /** "abc", Ctrl-L, "ls" gives the shell "lsc". */
  lemma OldLineShowsThrough(page: seq<byte>)
    requires |page| == Screen.PAGE
    ensures var t := LineEditor.PressAll(Booted(page), LineEditor.Typed([A, B, C]));
      LineEditor.ShellCommand(LineEditor.PressAll(LineEditor.ClearKey(t, true), LineEditor.Typed([L, S])).kb) == [L, S, C]
  {
    hide LineEditor.PressAll;
    hide LineEditor.ShellCommand;
    BootedIsFresh(page);
    LineEditor.TypedKeys(Booted(page), [A, B, C]);
    var t := LineEditor.PressAll(Booted(page), LineEditor.Typed([A, B, C]));
    LineEditor.TypedKeys(LineEditor.ClearKey(t, true), [L, S]);
    CommandAt([L, S] + t.kb[2..], [L, S, C]);
  }

  /** "a", Tab, "b" gives the shell "a". */
  lemma TabEndsTheCommand(page: seq<byte>)
    requires |page| == Screen.PAGE
    ensures LineEditor.ShellCommand(LineEditor.PressAll(Booted(page), LineEditor.Typed([A, NUL, B])).kb) == [A]
  {
    hide LineEditor.PressAll;
    hide LineEditor.ShellCommand;
    BootedIsFresh(page);
    LineEditor.TypedKeys(Booted(page), [A, NUL, B]);
    CommandAt([A, NUL, B] + Booted(page).kb[3..], [A]);
  }

  /** A program's prompt ends in column 3; Ctrl-L puts the shell's prompt up, and a backspace then
      sets the index to 255. */
  lemma BackspaceKillsKeyboard(t: LineEditor.Term)
    requires LineEditor.TermOk(t)
    ensures LineEditor.EraseKey(LineEditor.ClearKey(t, true), 3).index == 255
  {
    LineEditor.IndexWraps(LineEditor.ClearKey(t, true), 3);
  }

  // ----- blinking

  function DarkScreen(): Blink.Picture {
    Blink.Picture([], seq(Blink.VIDEO_SIZE, _ => 0))
  }

  /** A blinker that should stay on for 40000 ticks goes off at the first. */
  lemma LongBlinkIsShort()
    ensures var arg := Blink.Blinker(1, A, B, 40000, 1, 0, 0);
      && BlinkLaws.Alone(DarkScreen(), arg) && BlinkLaws.AllElsewhere([BlinkLaws.TickEvent], 1)
      && BlinkLaws.CellAfter(DarkScreen(), arg, [BlinkLaws.TickEvent]) == B
      && BlinkLaws.Literal(arg, 1)
  {
    var arg := Blink.Blinker(1, A, B, 40000, 1, 0, 0);
    assert [BlinkLaws.TickEvent][1..] == [];
    BlinkLaws.BlinkPeriod(DarkScreen(), arg, [BlinkLaws.TickEvent]);
  }

  /** A blinker that should never be on starts on. */
  lemma NoBlinkIsSome()
    ensures var arg := Blink.Blinker(1, A, B, 0, 2, 0, 0);
      && BlinkLaws.Alone(DarkScreen(), arg) && BlinkLaws.AllElsewhere([], 1)
      && BlinkLaws.CellAfter(DarkScreen(), arg, []) == A
      && !BlinkLaws.Literal(arg, 0)
  {
    BlinkLaws.BlinkPeriod(DarkScreen(), Blink.Blinker(1, A, B, 0, 2, 0, 0), []);
  }

  // ----- commands

  /** "cat" alone: `getargs` fails in the kernel and succeeds in the emulation. */
  lemma NoArgument()
    ensures KernelDelivery([C, A, T], 128) == NoText && EmulatedDelivery([C, A, T], 128) == Text([])
  {
    var cat := [C, A, T];
    IndexOfIs(cat, SPACE, 3);
    assert cat[0..] == cat && LeadingSpaces(cat) == 0 && cat[..3] == cat && cat[3..] == [];
    WordEndIsIndex(cat);
  }

  const GAP: seq<byte> := [B, SPACE, SPACE, C]

  lemma GapIsRest()
    ensures FirstWord([A, SPACE] + GAP) == [A] && RestArg([A, SPACE] + GAP) == GAP
  {
    var command := [A, SPACE] + GAP;
    IndexOfIs(command, SPACE, 1);
    assert command[0..] == command && LeadingSpaces(command) == 0 && command[..1] == [A];
    assert command[1..] == [SPACE] + GAP && ([SPACE] + GAP)[1..] == GAP;
    assert LeadingSpaces(GAP) == 0;
    assert LeadingSpaces([SPACE] + GAP) == 1;
  }

  lemma GapIsTwoWords()
    ensures Args(GAP) == [[B], [C]]
  {
    hide Args;
    hide WordEnd;
    hide LeadingSpaces;
    ArgsPlain(GAP);
    IndexOfIs(GAP, SPACE, 1);
    WordEndIsIndex(GAP);
    assert GAP[..1] == [B] && GAP[2..] == [SPACE, C];
    OneWord();
  }

  lemma OneWord()
    ensures Args([SPACE, C]) == [[C]]
  {
    hide Args;
    hide WordEnd;
    ArgsSkip([SPACE, C]);
    assert [SPACE, C][1..] == [C] && LeadingSpaces([C]) == 0;
    assert LeadingSpaces([SPACE, C]) == 1;
    ArgsPlain([C]);
    IndexOfIs([C], SPACE, 1);
    WordEndIsIndex([C]);
    assert [C][..1] == [C];
    ArgsStep([]);
  }

  /** "a b  c": the kernel keeps both spaces, the emulation one. */
  lemma TwoSpaces()
    ensures KernelDelivery([A, SPACE] + GAP, 128) == Text([B, SPACE, SPACE, C])
    ensures EmulatedDelivery([A, SPACE] + GAP, 128) == Text([B, SPACE, C])
  {
    hide Args;
    hide EmulatedArgs;
    hide FirstWord;
    hide RestArg;
    hide Join;
    GapIsRest();
    GapIsTwoWords();
    EmulatedArgsOfRest([A, SPACE] + GAP);
    JoinCons([B], [[C]]);
    JoinCons([C], []);
    assert [[B]] + [[C]] == [[B], [C]] && [[C]] + [] == [[C]];
  }
}
