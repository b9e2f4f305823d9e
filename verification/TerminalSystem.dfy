/** The code behind `Terminals`: one block of video memory that holds the displayed page and the
    three saved pages behind it, one key buffer, and the saved fields of three terminals
    (student-distrib/lib.c, keyboard.c and terminal.c). */
module TerminalSystem {
  import opened Bytes
  import opened Memory
  import opened Screen
  import opened LineEditor
  import opened Terminals
  import Processes

  /** The fields of `terminal_t` that a switch saves. */
  datatype Saved = Saved(x: nat, y: nat, kb: seq<byte>, index: nat)

  const VIDEO_PAGES := 4

  /** Page `k` of video memory: 0 is on display, `t + 1` is where terminal `t` is kept. */
  function PageOf(vmem: seq<byte>, k: nat): (r: seq<byte>)
    requires |vmem| == VIDEO_PAGES * PAGE && k < VIDEO_PAGES
    ensures |r| == PAGE
  {
    vmem[k * PAGE..(k + 1) * PAGE]
  }

  ghost predicate SameBehind(before: seq<byte>, after: seq<byte>) {
    |before| == |after| && forall k :: PAGE <= k < |after| ==> after[k] == before[k]
  }

  lemma PagesBehind(before: seq<byte>, after: seq<byte>)
    requires |before| == VIDEO_PAGES * PAGE && SameBehind(before, after)
    ensures PageOf(after, 1) == PageOf(before, 1)
    ensures PageOf(after, 2) == PageOf(before, 2)
    ensures PageOf(after, 3) == PageOf(before, 3)
  {
  }

  lemma ScrollEffect(before: seq<byte>, after: seq<byte>)
    requires |before| == |after| == VIDEO_PAGES * PAGE
    requires forall k :: 0 <= k < |after| && (k % 2 == 1 || k >= 2 * CELLS) ==> after[k] == before[k]
    requires forall k :: 0 <= k < 2 * (CELLS - COLS) && k % 2 == 0 ==> after[k] == before[k + 2 * COLS]
    requires forall k :: 2 * (CELLS - COLS) <= k < 2 * CELLS && k % 2 == 0 ==> after[k] == NUL
    ensures PageOf(after, 0) == Scrolled(PageOf(before, 0)) && SameBehind(before, after)
  {
    assert forall k :: 0 <= k < PAGE ==> PageOf(after, 0)[k] == Scrolled(PageOf(before, 0))[k];
  }

  class Console {
    const vmem: array<byte>
    var x: nat
    var y: nat

    ghost predicate Valid()
      reads this
    {
      vmem.Length == VIDEO_PAGES * PAGE && x < COLS && y < ROWS
    }

    ghost function Shown(): Display
      requires Valid()
      reads this, vmem
    {
      Display(PageOf(vmem[..], 0), x, y)
    }

    constructor (vmem: array<byte>)
      requires vmem.Length == VIDEO_PAGES * PAGE
      ensures Valid() && this.vmem == vmem && x == 0 && y == 0
    {
      this.vmem := vmem;
      x, y := 0, 0;
    }

    /** `clear` */
    method Clear()
      requires Valid()
      modifies vmem
      ensures PageOf(vmem[..], 0) == Cleared(old(PageOf(vmem[..], 0)))
      ensures SameBehind(old(vmem[..]), vmem[..])
    {
      var i := 0;
      while i < CELLS
        invariant 0 <= i <= CELLS
        invariant forall k :: 0 <= k < 2 * i ==> vmem[k] == if k % 2 == 0 then SPACE else ATTRIB
        invariant forall k :: 2 * i <= k < vmem.Length ==> vmem[k] == old(vmem[k])
      {
        vmem[2 * i] := SPACE;
        vmem[2 * i + 1] := ATTRIB;
        i := i + 1;
      }
    }

    /** `scroll_down` */
    method ScrollDown()
      requires Valid()
      modifies this`x, vmem
      ensures x == 0
      ensures PageOf(vmem[..], 0) == Scrolled(old(PageOf(vmem[..], 0)))
      ensures SameBehind(old(vmem[..]), vmem[..])
    {
      hide Scrolled;
      hide PageOf;
      hide SameBehind;
      ghost var before := vmem[..];
      x := 0;
      RowsUp();
      ClearLastRow();
      ScrollEffect(before, vmem[..]);
    }

    /** The first loop of `scroll_down`: every character one row up. */
    method RowsUp()
      requires Valid()
      modifies vmem
      ensures forall k :: 0 <= k < vmem.Length && (k % 2 == 1 || k >= 2 * (CELLS - COLS)) ==> vmem[k] == old(vmem[k])
      ensures forall k :: 0 <= k < 2 * (CELLS - COLS) && k % 2 == 0 ==> vmem[k] == old(vmem[..])[k + 2 * COLS]
    {
      ghost var before := vmem[..];
      var i := COLS;
      while i < ROWS * COLS
        invariant COLS <= i <= CELLS
        invariant forall k :: 0 <= k < vmem.Length && (k % 2 == 1 || k >= 2 * (i - COLS)) ==> vmem[k] == before[k]
        invariant forall k :: 0 <= k < 2 * (i - COLS) && k % 2 == 0 ==> vmem[k] == before[k + 2 * COLS]
      {
        vmem[2 * (i - COLS)] := vmem[2 * i];
        i := i + 1;
      }
    }

    /** The second loop: NULs in the last row. */
    method ClearLastRow()
      requires Valid()
      modifies vmem
      ensures forall k :: 0 <= k < vmem.Length && (k % 2 == 1 || k < 2 * (CELLS - COLS) || k >= 2 * CELLS) ==> vmem[k] == old(vmem[k])
      ensures forall k :: 2 * (CELLS - COLS) <= k < 2 * CELLS && k % 2 == 0 ==> vmem[k] == NUL
    {
      var i := 0;
      while i < COLS
        invariant 0 <= i <= COLS
        invariant forall k :: 0 <= k < vmem.Length && (k % 2 == 1 || k < 2 * (CELLS - COLS) || k >= 2 * (CELLS - COLS + i)) ==> vmem[k] == old(vmem[k])
        invariant forall k :: 2 * (CELLS - COLS) <= k < 2 * (CELLS - COLS + i) && k % 2 == 0 ==> vmem[k] == NUL
      {
        vmem[2 * (i + COLS * (ROWS - 1))] := NUL;
        i := i + 1;
      }
    }

    /** `putc` */
    method PutC(c: byte)
      requires Valid()
      modifies this, vmem
      ensures Valid() && Shown() == Put(old(Shown()), c)
      ensures SameBehind(old(vmem[..]), vmem[..])
    {
      hide Scrolled;
      if c == NEWLINE || c == RETURN {
        if y < ROWS - 1 {
          y := y + 1;
        } else {
          ScrollDown();
        }
        x := 0;
      } else {
        var at := 2 * (COLS * y + x);
        vmem[at] := c;
        vmem[at + 1] := ATTRIB;
        assert PageOf(vmem[..], 0) == old(PageOf(vmem[..], 0))[at := c][at + 1 := ATTRIB];
        x := x + 1;
        if x > COLS - 1 {
          x := x % COLS;
          if y < ROWS - 1 {
            y := y + 1;
          } else {
            ScrollDown();
          }
        }
      }
    }

    /** A backspace's store: blank a character cell on display. */
    method BlankCell(at: nat)
      requires Valid() && at < CELLS
      modifies vmem
      ensures PageOf(vmem[..], 0) == old(PageOf(vmem[..], 0))[2 * at := NUL]
      ensures SameBehind(old(vmem[..]), vmem[..])
    {
      vmem[2 * at] := NUL;
    }

    /** The output loop shared by `puts` and `terminal_write`. */
    method PutString(s: seq<byte>)
      requires Valid()
      modifies this, vmem
      ensures Valid() && Shown() == PutAll(old(Shown()), s)
      ensures SameBehind(old(vmem[..]), vmem[..])
    {
      hide Put;
      var i := 0;
      ghost var start := Shown();
      assert s[0..] == s;
      while i < |s|
        invariant i <= |s| && Valid()
        invariant PutAll(Shown(), s[i..]) == PutAll(start, s)
        invariant SameBehind(old(vmem[..]), vmem[..])
      {
        assert s[i..][0] == s[i] && s[i..][1..] == s[i + 1..];
        PutC(s[i]);
        i := i + 1;
      }
    }
  }

  ghost predicate SavedOk(s: Saved) {
    s.x < COLS && s.y < ROWS && |s.kb| == KB_SIZE && s.index < 256
  }

  class System {
    const console: Console
    const kb: array<byte>
    const terminals: array<Saved>
    var index: nat
    var stop: nat          // cursor_x
    var enter: bool        // enter_flag
    var cur: nat

    ghost predicate Valid()
      reads this, console, terminals
    {
      && console.Valid() && console.vmem != kb
      && kb.Length == KB_SIZE && terminals.Length == Processes.TERMINALS
      && index < 256 && cur < Processes.TERMINALS
      && forall t :: 0 <= t < Processes.TERMINALS ==> SavedOk(terminals[t])
    }

    ghost function Live(): Term
      requires Valid()
      reads this, console, console.vmem, kb, terminals
    {
      Term(console.Shown(), kb[..], index)
    }

    ghost function Kept(t: nat): Term
      requires Valid() && t < Processes.TERMINALS
      reads this, console, console.vmem, terminals
    {
      Term(Display(PageOf(console.vmem[..], t + 1), terminals[t].x, terminals[t].y), terminals[t].kb, terminals[t].index)
    }

    ghost function Abs(): Machine
      requires Valid()
      reads this, console, console.vmem, kb, terminals
    {
      Machine(cur, Live(), [Kept(0), Kept(1), Kept(2)], stop)
    }

    /** `terminal_init`, over a console that is already there. */
    constructor (console: Console)
      requires console.Valid()
      ensures Valid() && this.console == console && fresh(kb) && fresh(terminals)
      ensures cur == 0 && index == 0 && forall t :: 0 <= t < Processes.TERMINALS ==> terminals[t] == Saved(0, 0, seq(KB_SIZE, _ => NUL), 0)
    {
      this.console := console;
      kb := new byte[KB_SIZE](_ => NUL);
      terminals := new Saved[Processes.TERMINALS](_ => Saved(0, 0, seq(KB_SIZE, _ => NUL), 0));
      index, stop, enter, cur := 0, 0, false, 0;
    }

    method Print(c: byte)
      requires Valid()
      modifies console, console.vmem
      ensures Valid() && Abs() == Step(old(Abs()), Event.Print(c))
    {
      ghost var before := console.vmem[..];
      console.PutC(c);
      PagesBehind(before, console.vmem[..]);
    }

    /** `terminal_write` */
    method Write(s: seq<byte>)
      requires Valid()
      modifies this`stop, console, console.vmem
      ensures Valid() && Abs() == Step(old(Abs()), Event.Write(s))
    {
      hide PutAll;
      if s == [] {
        return;
      }
      ghost var before := console.vmem[..];
      console.PutString(s);
      PagesBehind(before, console.vmem[..]);
      stop := console.x;
    }

    /** A key that prints. */
    method Type(c: byte)
      requires Valid()
      modifies this`index, kb, console, console.vmem
      ensures Valid() && Abs() == Step(old(Abs()), Event.Type(c))
    {
      if index >= KB_SIZE {
        return;
      }
      ghost var before := console.vmem[..];
      console.PutC(c);
      PagesBehind(before, console.vmem[..]);
      kb[index] := c;
      index := index + 1;
    }

    /** Backspace, where its stores stay inside the key buffer. */
    method Erase()
      requires Valid() && StoresInside(Live(), stop)
      modifies this`index, kb, console, console.vmem
      ensures Valid() && Abs() == Step(old(Abs()), Event.Erase)
    {
      hide PageOf;
      hide SameBehind;
      ghost var before, keys := console.vmem[..], kb[..];
      if console.x != 0 && console.x != stop {
        console.BlankCell(COLS * console.y + console.x - 1);
        PagesBehind(before, console.vmem[..]);
        kb[index] := NUL;
        index := (index + 255) % 256;
        kb[index] := NUL;
        assert kb[..] == Stored(Stored(keys, old(index), NUL), index, NUL);
        console.x := console.x - 1;
      } else if console.y != 0 && console.x != stop {
        console.BlankCell(COLS * (console.y - 1) + COLS - 1);
        PagesBehind(before, console.vmem[..]);
        kb[index] := NUL;
        index := (index + 255) % 256;
        console.x, console.y := COLS - 1, console.y - 1;
      }
    }

    method Enter()
      requires Valid()
      modifies this`index, this`enter, console, console.vmem
      ensures Valid() && Abs() == Step(old(Abs()), Event.Enter) && enter
    {
      hide Scrolled;
      ghost var before := console.vmem[..];
      enter := true;
      index := 0;
      if console.y == ROWS - 1 {
        console.ScrollDown();
        PagesBehind(before, console.vmem[..]);
      } else {
        console.y := console.y + 1;
        console.x := 0;
      }
    }

    /** Ctrl-L */
    method ClearScreen(prompt: bool)
      requires Valid()
      modifies this`index, console, console.vmem
      ensures Valid() && Abs() == Step(old(Abs()), Event.Clear(prompt))
    {
      hide Cleared;
      hide PutAll;
      ghost var before := console.vmem[..];
      console.Clear();
      console.x, console.y := 0, 0;
      if prompt {
        console.PutString(PROMPT);
        console.x, console.y := 7, 0;
      }
      PagesBehind(before, console.vmem[..]);
      index := 0;
    }

    /** `reset_keyboard` */
    method ResetKeyboard()
      requires Valid()
      modifies this`index, this`enter, kb
      ensures Valid() && index == 0 && !enter && kb[..] == seq(KB_SIZE, _ => NUL)
    {
      var i := 0;
      while i < KB_SIZE
        invariant 0 <= i <= KB_SIZE
        invariant forall k :: 0 <= k < i ==> kb[k] == NUL
      {
        kb[i] := NUL;
        i := i + 1;
      }
      enter := false;
      index := 0;
    }

    /** `terminal_read` once Enter has been pressed. It writes one byte more than it reports. */
    method ReadLine(buf: array<byte>, nbytes: nat) returns (r: nat)
      requires Valid() && enter && buf != kb && buf != console.vmem
      requires nbytes > 0 ==> Min(nbytes, KB_SIZE) < buf.Length
      modifies this`index, this`enter, kb, buf
      ensures Valid() && r == Min(nbytes, KB_SIZE)
      ensures nbytes > 0 ==> Abs() == Step(old(Abs()), Event.ReadLine)
      ensures nbytes > 0 ==> buf[..r] == old(kb[..r - 1]) + [NEWLINE] && buf[r] == NUL
      ensures nbytes >= KB_SIZE ==> buf[..r] == LineRead(old(kb[..]))
      ensures nbytes == 0 ==> Abs() == old(Abs())
    {
      if nbytes == 0 {
        return 0;
      }
      r := if nbytes > KB_SIZE then KB_SIZE else nbytes;
      var i := 0;
      while i < r
        invariant 0 <= i <= r
        invariant forall k :: 0 <= k < i ==> buf[k] == kb[k]
        modifies buf
      {
        buf[i] := kb[i];
        i := i + 1;
      }
      ResetKeyboard();
      buf[r - 1] := NEWLINE;
      buf[r] := NUL;
    }

    /** `set_kb_buffer` */
    method SetKeys(keys: seq<byte>)
      requires Valid() && |keys| == KB_SIZE
      modifies kb
      ensures kb[..] == keys
    {
      var i := 0;
      while i < KB_SIZE
        invariant 0 <= i <= KB_SIZE
        invariant forall k :: 0 <= k < i ==> kb[k] == keys[k]
      {
        kb[i] := keys[i];
        i := i + 1;
      }
    }

    /** The saving half of `switch_terminal`: fields, keys and page. */
    method SaveCurrent()
      requires Valid()
      modifies terminals, console.vmem
      ensures Valid() && Live() == old(Live())
      ensures Kept(0) == if cur == 0 then old(Live()) else old(Kept(0))
      ensures Kept(1) == if cur == 1 then old(Live()) else old(Kept(1))
      ensures Kept(2) == if cur == 2 then old(Live()) else old(Kept(2))
    {
      hide PageOf;
      ghost var before := console.vmem[..];
      terminals[cur] := Saved(console.x, console.y, kb[..], index);
      Memcpy(console.vmem, (cur + 1) * PAGE, 0, PAGE);
      PageStored(before, console.vmem[..], cur);
    }

    /** The restoring half. */
    method Restore(tid: nat)
      requires Valid() && tid < Processes.TERMINALS
      modifies this`index, this`enter, this`cur, kb, console, console.vmem
      ensures Valid() && Live() == old(Kept(tid)) && cur == tid && !enter
      ensures Kept(0) == old(Kept(0)) && Kept(1) == old(Kept(1)) && Kept(2) == old(Kept(2))
    {
      hide PageOf;
      hide SameBehind;
      ResetKeyboard();
      SetKeys(terminals[tid].kb);
      index := terminals[tid].index;
      ghost var before := console.vmem[..];
      cur := tid;
      Memcpy(console.vmem, 0, (cur + 1) * PAGE, PAGE);
      PageShown(before, console.vmem[..], tid);
      PagesBehind(before, console.vmem[..]);
      console.x, console.y := terminals[cur].x, terminals[cur].y;
    }

    /** The console and keyboard half of `switch_terminal`. */
    method Switch(tid: nat)
      requires Valid() && tid < Processes.TERMINALS
      modifies this`index, this`enter, this`cur, kb, terminals, console, console.vmem
      ensures Valid() && Abs() == Step(old(Abs()), Event.SwitchTo(tid)) && !enter
    {
      hide PageOf;
      SaveCurrent();
      Restore(tid);
    }
  }

  lemma PageStored(before: seq<byte>, after: seq<byte>, cur: nat)
    requires |before| == |after| == VIDEO_PAGES * PAGE && cur < Processes.TERMINALS
    requires after[(cur + 1) * PAGE..(cur + 1) * PAGE + PAGE] == before[0..0 + PAGE]
    requires forall k :: 0 <= k < |after| && !((cur + 1) * PAGE <= k < (cur + 1) * PAGE + PAGE) ==> after[k] == before[k]
    ensures PageOf(after, cur + 1) == PageOf(before, 0)
    ensures cur != 0 ==> PageOf(after, 1) == PageOf(before, 1)
    ensures cur != 1 ==> PageOf(after, 2) == PageOf(before, 2)
    ensures cur != 2 ==> PageOf(after, 3) == PageOf(before, 3)
    ensures PageOf(after, 0) == PageOf(before, 0)
  {
  }

  lemma PageShown(before: seq<byte>, after: seq<byte>, tid: nat)
    requires |before| == |after| == VIDEO_PAGES * PAGE && tid < Processes.TERMINALS
    requires after[0..0 + PAGE] == before[(tid + 1) * PAGE..(tid + 1) * PAGE + PAGE]
    requires forall k :: 0 <= k < |after| && !(0 <= k < PAGE) ==> after[k] == before[k]
    ensures PageOf(after, 0) == PageOf(before, tid + 1) && SameBehind(before, after)
  {
  }
}
