/** The keys of the line editor (student-distrib/keyboard.c: kb_intr) on one terminal, and what
    they make of a line typed at a prompt. Scancodes are already decoded to keys. */
module LineEditor {
  import opened Bytes
  import opened Screen

  const KB_SIZE := 128

  /** A terminal: what it displays, its key buffer and its index into it (a byte). */
  datatype Term = Term(display: Display, kb: seq<byte>, index: nat)

  ghost predicate TermOk(t: Term) {
    DisplayOk(t.display) && |t.kb| == KB_SIZE && t.index < 256
  }

  /** A store into the key buffer. What a store that misses it hits is outside the model: every
      statement about the code asks for `StoresInside`. */
  function Stored(kb: seq<byte>, i: nat, c: byte): (r: seq<byte>)
    ensures |r| == |kb|
  {
    if i < |kb| then kb[i := c] else kb
  }

  function TypeKey(t: Term, c: byte): (r: Term)
    requires TermOk(t)
    ensures TermOk(r)
  {
    if t.index >= KB_SIZE then t else Term(Put(t.display, c), t.kb[t.index := c], t.index + 1)
  }

  function Erased(d: Display): Display
    requires |d.page| == PAGE && 2 * Cursor(d) < PAGE
  {
    d.(page := d.page[2 * Cursor(d) := NUL])
  }

  function Before(index: nat): nat
    requires index < 256
  {
    (index + 255) % 256
  }

  /** Backspace; `stop` is the column the last write left the cursor in. */
  function EraseKey(t: Term, stop: nat): (r: Term)
    requires TermOk(t)
    ensures TermOk(r)
  {
    var d := t.display;
    if d.x == stop then t
    else if d.x != 0 then
      Term(Erased(d.(x := d.x - 1)), Stored(Stored(t.kb, t.index, NUL), Before(t.index), NUL), Before(t.index))
    else if d.y != 0 then
      Term(Erased(d.(x := COLS - 1, y := d.y - 1)), Stored(t.kb, t.index, NUL), Before(t.index))
    else t
  }

  /** Does a backspace erase anything? */
  predicate Erases(d: Display, stop: nat) {
    d.x != stop && (d.x != 0 || d.y != 0)
  }

  /** All stores of a backspace lie in the key buffer: it is not full, and the index does not wrap
      to 255 before the second store. */
  predicate StoresInside(t: Term, stop: nat) {
    Erases(t.display, stop) ==> t.index < KB_SIZE && (t.index == 0 ==> t.display.x == 0)
  }

  /** The index wraps below zero exactly when a backspace erases with nothing typed, which takes a
      cursor outside the prompt's column: the column is shared by the terminals, and Ctrl-L does
      not set it. From then on the keyboard is dead until the index is reset. */
  lemma IndexWraps(t: Term, stop: nat)
    requires TermOk(t)
    ensures EraseKey(t, stop).index > t.index <==> t.index == 0 && Erases(t.display, stop)
    ensures EraseKey(t, stop).index > t.index ==> forall c :: TypeKey(EraseKey(t, stop), c) == EraseKey(t, stop)
  {
  }

  function EnterKey(t: Term): (r: Term)
    requires TermOk(t)
    ensures TermOk(r)
  {
    Term(NextRow(t.display), t.kb, 0)
  }

  const PROMPT: seq<byte> := [51, 57, 49, 79, 83, 62, 32]

  lemma PromptReads()
    ensures PROMPT == Ascii("391OS> ")
  {
  }

  /** Ctrl-L: clear, and print the prompt when a program has been run. */
  function ClearKey(t: Term, prompt: bool): (r: Term)
    requires TermOk(t)
    ensures TermOk(r)
  {
    var home := Display(Cleared(t.display.page), 0, 0);
    Term(if prompt then PutAll(home, PROMPT).(x := 7, y := 0) else home, t.kb, 0)
  }

  function ResetKeys(t: Term): Term {
    t.(kb := seq(KB_SIZE, _ => NUL), index := 0)
  }

  // ----- a line typed at a prompt

  /** A backspace comes with the column at which backspace stops when it is pressed. */
  datatype Key = Char(c: byte) | Backspace(stop: nat)

  function Press(t: Term, k: Key): (r: Term)
    requires TermOk(t)
    ensures TermOk(r)
  {
    match k
    case Char(c) => TypeKey(t, c)
    case Backspace(stop) => EraseKey(t, stop)
  }

  function PressAll(t: Term, keys: seq<Key>): (r: Term)
    requires TermOk(t)
    ensures TermOk(r)
  {
    if keys == [] then t else Press(PressAll(t, keys[..|keys| - 1]), keys[|keys| - 1])
  }

  /** The reference editor: the text, and the rest of the key buffer behind it. Typing pushes while
      there is room. Backspace pops unless the text ends in the stop column; what it pops is
      cleared, except across the start of a row, where the character stays behind. */
  datatype Line = Line(text: seq<byte>, behind: seq<byte>)

  predicate LineOk(line: Line) { |line.text| + |line.behind| == KB_SIZE }

  function Fresh(): Line {
    Line([], seq(KB_SIZE, _ => NUL))
  }

  function Pop(line: Line, across: bool): Line
    requires line.text != []
  {
    var n := |line.text|;
    Line(line.text[..n - 1],
         [if across then line.text[n - 1] else NUL] + if line.behind == [] then [] else [NUL] + line.behind[1..])
  }

  /** The column a text of `n` characters ends in when it starts in column `col`. */
  function EndColumn(col: nat, n: nat): nat { (col + n) % COLS }

  function EditStep(line: Line, k: Key, col: nat): (r: Line)
    ensures LineOk(line) ==> LineOk(r)
  {
    match k
    case Char(c) => if line.behind != [] then Line(line.text + [c], line.behind[1..]) else line
    case Backspace(stop) =>
      var end := EndColumn(col, |line.text|);
      if line.text != [] && end != stop then Pop(line, end == 0) else line
  }

  function Edited(start: Line, keys: seq<Key>, col: nat): (r: Line)
    ensures LineOk(start) ==> LineOk(r)
  {
    if keys == [] then start else EditStep(Edited(start, keys[..|keys| - 1], col), keys[|keys| - 1], col)
  }

  /** Keys as they come: no key of the four layouts types a line break. */
  ghost predicate Glyphs(keys: seq<Key>) {
    forall i :: 0 <= i < |keys| && keys[i].Char? ==> !Breaks(keys[i].c)
  }

  /** No backspace is pressed with all 128 characters typed, nor one that stops elsewhere with
      nothing typed. */
  ghost predicate InBuffer(start: Line, keys: seq<Key>, col: nat) {
    forall i :: 0 <= i < |keys| && keys[i].Backspace? ==>
      var text := Edited(start, keys[..i], col).text; |text| < KB_SIZE && (text == [] ==> keys[i].stop == col)
  }

  lemma FrontKeys(start: Line, keys: seq<Key>, col: nat, n: nat)
    requires Glyphs(keys) && InBuffer(start, keys, col) && n <= |keys|
    ensures Glyphs(keys[..n]) && InBuffer(start, keys[..n], col)
  {
    forall i | 0 <= i < n ensures keys[..n][..i] == keys[..i] && keys[..n][i] == keys[i] {
    }
  }

  /** The cells from the prompt, which ends in column `col`, to the cursor hold the text. */
  ghost predicate CellsHold(chars: seq<byte>, cursor: nat, text: seq<byte>, col: nat) {
    && |chars| == CELLS && |text| <= cursor <= CELLS && col < COLS
    && (cursor - |text|) % COLS == col
    && chars[cursor - |text|..cursor] == text
  }

  /** The key buffer is the text up to the index and the rest behind it, and the cells from the
      prompt to the cursor hold the text. */
  ghost predicate Holds(t: Term, line: Line, col: nat) {
    && TermOk(t) && LineOk(line)
    && t.kb == line.text + line.behind && t.index == |line.text|
    && CellsHold(Chars(t.display.page), Cursor(t.display), line.text, col)
  }

  lemma CharsOfErased(page: seq<byte>, k: nat)
    requires |page| == PAGE && k < CELLS
    ensures Chars(page[2 * k := NUL]) == Chars(page)[k := NUL]
  {
  }

  lemma KeysTyped(line: Line, c: byte)
    requires LineOk(line) && line.behind != []
    ensures (line.text + line.behind)[|line.text| := c] == line.text + [c] + line.behind[1..]
  {
  }

  lemma BehindCleared(line: Line)
    requires LineOk(line)
    ensures Stored(line.text + line.behind, |line.text|, NUL)
         == line.text + if line.behind == [] then [] else [NUL] + line.behind[1..]
  {
  }

  lemma LastReplaced(text: seq<byte>, rest: seq<byte>, c: byte)
    requires text != []
    ensures (text + rest)[|text| - 1 := c] == text[..|text| - 1] + ([c] + rest)
  {
  }

  lemma LastSplit(text: seq<byte>, rest: seq<byte>)
    requires text != []
    ensures text + rest == text[..|text| - 1] + ([text[|text| - 1]] + rest)
  {
  }

  lemma KeysErased(line: Line, across: bool)
    requires LineOk(line) && line.text != []
    ensures var n, cleared := |line.text|, Stored(line.text + line.behind, |line.text|, NUL);
      && LineOk(Pop(line, across))
      && (if across then cleared else Stored(cleared, n - 1, NUL)) == Pop(line, across).text + Pop(line, across).behind
  {
    var rest := if line.behind == [] then [] else [NUL] + line.behind[1..];
    BehindCleared(line);
    if across {
      LastSplit(line.text, rest);
    } else {
      LastReplaced(line.text, rest, NUL);
    }
  }

  lemma CellsTyped(chars: seq<byte>, at: nat, text: seq<byte>, col: nat, c: byte)
    requires CellsHold(chars, at, text, col) && at < CELLS
    ensures CellsHold(chars[at := c], at + 1, text + [c], col)
  {
  }

  lemma CellsScrolled(chars: seq<byte>, text: seq<byte>, col: nat)
    requires CellsHold(chars, CELLS, text, col) && |text| <= CELLS - COLS
    ensures CellsHold(chars[COLS..] + seq(COLS, _ => NUL), CELLS - COLS, text, col)
  {
    assert (CELLS - |text| - COLS) % COLS == (CELLS - |text|) % COLS;
  }

  lemma CellsErased(chars: seq<byte>, at: nat, text: seq<byte>, col: nat)
    requires CellsHold(chars, at, text, col) && text != []
    ensures CellsHold(chars[at - 1 := NUL], at - 1, text[..|text| - 1], col)
  {
    assert at - |text| == at - 1 - (|text| - 1);
  }

  lemma TypeHolds(t: Term, line: Line, col: nat, c: byte)
    requires Holds(t, line, col) && !Breaks(c)
    ensures Holds(TypeKey(t, c), EditStep(line, Char(c), col), col)
  {
    hide Put;
    hide Chars;
    hide CellsHold;
    var at, chars := Cursor(t.display), Chars(t.display.page);
    if t.index < KB_SIZE {
      PutOnChars(t.display, c);
      KeysTyped(line, c);
      CellsInside(chars, at, line.text, col);
      CellsTyped(chars, at, line.text, col, c);
      if at + 1 == CELLS { CellsScrolled(chars[at := c], line.text + [c], col); }
    }
  }

  lemma CellsInside(chars: seq<byte>, at: nat, text: seq<byte>, col: nat)
    requires CellsHold(chars, at, text, col)
    ensures |chars| == CELLS && |text| <= at
  {
  }

  /** The column the cursor is in, from the prompt's column and the length of the text. */
  lemma Column(x: nat, y: nat, n: nat, col: nat)
    requires x < COLS && col < COLS && n <= COLS * y + x && (COLS * y + x - n) % COLS == col
    ensures x == EndColumn(col, n)
    ensures EndColumn(col, n) == col <==> n % COLS == 0
  {
    var q, r := (COLS * y + x - n) / COLS, n / COLS;
    assert col + n == x + COLS * (y - q);
  }

  lemma ErasedTerm(t: Term, stop: nat)
    requires TermOk(t) && t.display.x != stop && Cursor(t.display) > 0
    ensures var r, at, cleared := EraseKey(t, stop), Cursor(t.display), Stored(t.kb, t.index, NUL);
      && Chars(r.display.page) == Chars(t.display.page)[at - 1 := NUL] && Cursor(r.display) == at - 1
      && r.index == Before(t.index)
      && r.kb == if t.display.x == 0 then cleared else Stored(cleared, Before(t.index), NUL)
  {
    CharsOfErased(t.display.page, Cursor(t.display) - 1);
    hide Chars;
    hide Stored;
  }

  lemma CursorColumn(t: Term, line: Line, col: nat)
    requires Holds(t, line, col)
    ensures TermOk(t) && col < COLS
    ensures t.display.x == EndColumn(col, |line.text|)
    ensures EndColumn(col, |line.text|) == col <==> |line.text| % COLS == 0
    ensures line.text != [] ==> Cursor(t.display) > 0
    ensures line.text == [] ==> t.display.x == col
    ensures t.index == |line.text|
  {
    Column(t.display.x, t.display.y, |line.text|, col);
  }

  lemma EraseHolds(t: Term, line: Line, col: nat, stop: nat)
    requires Holds(t, line, col) && (line.text == [] ==> stop == col)
    ensures Holds(EraseKey(t, stop), EditStep(line, Backspace(stop), col), col)
    ensures |line.text| < KB_SIZE ==> StoresInside(t, stop)
  {
    hide Holds;
    hide EraseKey;
    hide EndColumn;
    CursorColumn(t, line, col);
    if line.text != [] && t.display.x != stop {
      PopHolds(t, line, col, stop);
    } else {
      NothingErased(t, stop);
    }
  }

  lemma NothingErased(t: Term, stop: nat)
    requires TermOk(t) && t.display.x == stop
    ensures EraseKey(t, stop) == t
  {
  }

  lemma BeforeIs(n: nat)
    requires 0 < n < 256
    ensures Before(n) == n - 1
  {
  }

  lemma PopHolds(t: Term, line: Line, col: nat, stop: nat)
    requires Holds(t, line, col) && line.text != [] && t.display.x != stop
    ensures Holds(EraseKey(t, stop), Pop(line, t.display.x == 0), col)
  {
    hide EraseKey;
    hide Chars;
    hide Cursor;
    hide CellsHold;
    hide Stored;
    hide EndColumn;
    hide Before;
    CursorColumn(t, line, col);
    BeforeIs(t.index);
    ErasedTerm(t, stop);
    KeysErased(line, t.display.x == 0);
    CellsErased(Chars(t.display.page), Cursor(t.display), line.text, col);
  }

  /** From a prompt, any sequence of characters and backspaces leaves the key buffer, the index and
      the screen exactly as the reference editor says, which starts with whatever the key buffer
      holds, and no store leaves the buffer. The stop column may change from key to key. */
  lemma EditorHolds(t: Term, keys: seq<Key>)
    requires TermOk(t) && t.index == 0
    requires Glyphs(keys) && InBuffer(Line([], t.kb), keys, t.display.x)
    ensures Holds(PressAll(t, keys), Edited(Line([], t.kb), keys, t.display.x), t.display.x)
    ensures forall i :: 0 <= i < |keys| && keys[i].Backspace? ==> StoresInside(PressAll(t, keys[..i]), keys[i].stop)
  {
    EditorRuns(t, keys);
    forall i | 0 <= i < |keys| && keys[i].Backspace? ensures StoresInside(PressAll(t, keys[..i]), keys[i].stop) {
      FrontKeys(Line([], t.kb), keys, t.display.x, i);
      EditorRuns(t, keys[..i]);
      EraseHolds(PressAll(t, keys[..i]), Edited(Line([], t.kb), keys[..i], t.display.x), t.display.x, keys[i].stop);
    }
  }

  lemma {:induction false} EditorRuns(t: Term, keys: seq<Key>)
    requires TermOk(t) && t.index == 0
    requires Glyphs(keys) && InBuffer(Line([], t.kb), keys, t.display.x)
    ensures Holds(PressAll(t, keys), Edited(Line([], t.kb), keys, t.display.x), t.display.x)
  {
    hide EditStep;
    hide Holds;
    var col := t.display.x;
    if keys == [] {
      NothingTyped(t);
    } else {
      var front, last := keys[..|keys| - 1], keys[|keys| - 1];
      FrontKeys(Line([], t.kb), keys, col, |keys| - 1);
      EditorRuns(t, front);
      var t', line := PressAll(t, front), Edited(Line([], t.kb), front, col);
      match last
      case Char(c) => TypeHolds(t', line, col, c);
      case Backspace(stop) => EraseHolds(t', line, col, stop);
    }
  }

  lemma NothingTyped(t: Term)
    requires TermOk(t) && t.index == 0
    ensures Holds(t, Line([], t.kb), t.display.x)
  {
  }

  /** From a fresh prompt at most one character is ever left behind, and only by a backspace that
      was the last key. */
  lemma {:induction false} LeftBehind(keys: seq<Key>, col: nat)
    ensures var behind := Edited(Fresh(), keys, col).behind;
      && (forall i :: 1 <= i < |behind| ==> behind[i] == NUL)
      && (behind != [] && behind[0] != NUL ==> keys != [] && keys[|keys| - 1].Backspace?)
  {
    if keys != [] {
      LeftBehind(keys[..|keys| - 1], col);
    }
  }

  /** A read of the finished line and a prompt lead back to a fresh prompt, whatever was typed
      before, and after Enter. */
  function NextPrompt(t: Term, prompt: seq<byte>): (r: Term)
    requires TermOk(t)
    ensures TermOk(r)
  {
    var read := ResetKeys(t);
    read.(display := PutAll(read.display, prompt))
  }

  lemma NextLineHolds(t: Term, prompt: seq<byte>, keys: seq<Key>)
    requires TermOk(t) && prompt != []
    requires Glyphs(keys) && InBuffer(Fresh(), keys, NextPrompt(t, prompt).display.x)
    ensures var start := NextPrompt(t, prompt);
      Holds(PressAll(start, keys), Edited(Fresh(), keys, start.display.x), start.display.x)
  {
    hide Holds;
    hide Put;
    EditorHolds(NextPrompt(t, prompt), keys);
  }

  /** A backspace takes the last character of a non-empty line off the key buffer and the screen if
      and only if the line does not end in the stop column; otherwise it does nothing. Where the
      stop column is the prompt's, the line ends there when its length is a multiple of the row. */
  lemma BackspaceMeetsIntent(t: Term, line: Line, col: nat, stop: nat)
    requires Holds(t, line, col) && line.text != [] && |line.text| < KB_SIZE
    ensures var r, shorter := EraseKey(t, stop), line.text[..|line.text| - 1];
      && ((r.index == |shorter| && r.kb[..r.index] == shorter && CellsHold(Chars(r.display.page), Cursor(r.display), shorter, col))
          <==> EndColumn(col, |line.text|) != stop)
      && (EndColumn(col, |line.text|) == stop ==> r == t)
    ensures EndColumn(col, |line.text|) == col <==> |line.text| % COLS == 0
  {
    hide EraseKey;
    hide CellsHold;
    hide Chars;
    hide Cursor;
    hide EndColumn;
    CursorColumn(t, line, col);
    if t.display.x != stop {
      PopHolds(t, line, col, stop);
    } else {
      NothingErased(t, stop);
    }
  }

  /** The bytes a read of the keyboard delivers once Enter is pressed: the key buffer with its
      last byte replaced by a newline, for a read of 128 bytes or more. */
  function LineRead(kb: seq<byte>): seq<byte>
    requires |kb| == KB_SIZE
  {
    kb[..KB_SIZE - 1] + [NEWLINE]
  }

  /** The command a shell finds in what it read: the last newline dropped, up to the first NUL. */
  function ShellCommand(kb: seq<byte>): seq<byte>
    requires |kb| == KB_SIZE
  {
    CStr(LineRead(kb)[..KB_SIZE - 1] + [NUL])
  }

  /** The shell gets the line on the screen if and only if the line leaves room for the newline,
      no key in it typed a NUL, and the byte behind it is clear or is where the newline goes. */
  lemma ShellGetsTheLine(t: Term, line: Line, col: nat)
    requires Holds(t, line, col)
    ensures ShellCommand(t.kb) == line.text <==>
      |line.text| < 128 && NulFree(line.text) && (|line.text| == 127 || line.behind[0] == NUL)
  {
    hide CellsHold;
    CommandIs(t.kb, line);
  }

  lemma CommandIs(kb: seq<byte>, line: Line)
    requires LineOk(line) && kb == line.text + line.behind
    ensures ShellCommand(kb) == line.text <==>
      |line.text| < KB_SIZE && NulFree(line.text) && (|line.text| == KB_SIZE - 1 || line.behind[0] == NUL)
  {
    var n, mem := |line.text|, LineRead(kb)[..KB_SIZE - 1] + [NUL];
    assert forall i :: 0 <= i < KB_SIZE - 1 ==> mem[i] == kb[i];
    var k := IndexOf(mem, NUL);
    assert mem[KB_SIZE - 1] == NUL;
    if n < KB_SIZE && NulFree(line.text) {
      assert forall i :: 0 <= i < n ==> mem[i] == line.text[i] && line.text[i] in line.text;
      if n == KB_SIZE - 1 || line.behind[0] == NUL {
        IndexOfIs(mem, NUL, n);
        assert CStr(mem) == line.text;
      } else {
        assert mem[n] == kb[n] == line.behind[0];
        assert k != n;
      }
    } else if n < KB_SIZE {
      var i :| 0 <= i < n && line.text[i] == NUL;
      assert mem[i] == NUL;
    }
  }

  // ----- Ctrl-L

  function Typed(m: seq<byte>): (keys: seq<Key>)
    ensures |keys| == |m|
  {
    seq(|m|, i requires 0 <= i < |m| => Char(m[i]))
  }

  /** Characters alone overwrite the front of the key buffer. */
  lemma {:induction false} TypedKeys(t: Term, m: seq<byte>)
    requires TermOk(t) && t.index == 0 && |m| <= KB_SIZE
    ensures var r := PressAll(t, Typed(m)); r.index == |m| && r.kb == m + t.kb[|m|..]
  {
    hide Put;
    if m != [] {
      var front, c := m[..|m| - 1], m[|m| - 1];
      TypedKeys(t, front);
      assert Typed(m)[..|m| - 1] == Typed(front);
      assert (front + t.kb[|front|..])[|front| := c] == m + t.kb[|m|..];
    }
  }

  lemma {:induction false} TypedEdits(start: Line, m: seq<byte>, col: nat)
    requires start.text == [] && |m| <= |start.behind|
    ensures Edited(start, Typed(m), col) == Line(m, start.behind[|m|..])
  {
    if m != [] {
      var front := m[..|m| - 1];
      TypedEdits(start, front, col);
      assert Typed(m)[..|m| - 1] == Typed(front);
    }
  }

  /** Ctrl-L starts a new line on the screen but leaves the old one in the key buffer. Of the
      characters typed next the shell gets exactly those typed if and only if there is room for
      the newline, none is a NUL, and the old byte just behind them is clear or is where the
      newline goes. */
  lemma ClearedLine(t: Term, prompt: bool, m: seq<byte>)
    requires TermOk(t) && |m| <= KB_SIZE
    ensures ShellCommand(PressAll(ClearKey(t, prompt), Typed(m)).kb) == m <==>
      |m| < KB_SIZE && NulFree(m) && (|m| == KB_SIZE - 1 || t.kb[|m|] == NUL)
  {
    hide PressAll;
    hide Put;
    hide Cleared;
    TypedKeys(ClearKey(t, prompt), m);
    CommandIs(m + t.kb[|m|..], Line(m, t.kb[|m|..]));
  }

  /** Typing ahead: Enter starts a new line too, and leaves the old one in the key buffer until it
      is read. Of the characters typed after it the next read gives the shell exactly those typed
      under the same condition. */
  lemma TypedAhead(t: Term, m: seq<byte>)
    requires TermOk(t) && |m| <= KB_SIZE
    ensures PressAll(EnterKey(t), Typed(m)).index == |m|
    ensures ShellCommand(PressAll(EnterKey(t), Typed(m)).kb) == m <==>
      |m| < KB_SIZE && NulFree(m) && (|m| == KB_SIZE - 1 || t.kb[|m|] == NUL)
  {
    hide PressAll;
    hide Scrolled;
    TypedKeys(EnterKey(t), m);
    CommandIs(m + t.kb[|m|..], Line(m, t.kb[|m|..]));
  }

  /** In terms of a NUL-free old line from a fresh prompt: the new one must reach past it, and past
      a character that was left behind it. */
  lemma ClearedOldLine(t: Term, keys: seq<Key>, col: nat, prompt: bool, m: seq<byte>)
    requires Glyphs(keys) && Holds(t, Edited(Fresh(), keys, col), col) && NulFree(Edited(Fresh(), keys, col).text)
    requires |m| < KB_SIZE && NulFree(m)
    ensures var line := Edited(Fresh(), keys, col);
      var left := |line.text| + if line.behind != [] && line.behind[0] != NUL then 1 else 0;
      ShellCommand(PressAll(ClearKey(t, prompt), Typed(m)).kb) == m <==> |m| >= left || |m| == KB_SIZE - 1
  {
    hide PressAll;
    hide ClearKey;
    hide CellsHold;
    hide Edited;
    LeftBehind(keys, col);
    ClearedLine(t, prompt, m);
    var line := Edited(Fresh(), keys, col);
    assert |m| < |line.text| ==> t.kb[|m|] == line.text[|m|] && line.text[|m|] in line.text;
    assert |m| >= |line.text| ==> t.kb[|m|] == line.behind[|m| - |line.text|];
  }

  /** Backspaces included: the line edited after Ctrl-L is the reference editor's, started on what
      the key buffer still holds. */
  lemma EditedAfterClear(t: Term, prompt: bool, keys: seq<Key>)
    requires TermOk(t) && Glyphs(keys)
    requires InBuffer(Line([], t.kb), keys, ClearKey(t, prompt).display.x)
    ensures var start := ClearKey(t, prompt);
      var line := Edited(Line([], t.kb), keys, start.display.x);
      ShellCommand(PressAll(start, keys).kb) == line.text <==>
        |line.text| < KB_SIZE && NulFree(line.text) && (|line.text| == KB_SIZE - 1 || line.behind[0] == NUL)
  {
    hide PressAll;
    hide Edited;
    hide Put;
    hide Cleared;
    hide Holds;
    var start := ClearKey(t, prompt);
    EditorHolds(start, keys);
    var line := Edited(Line([], t.kb), keys, start.display.x);
    HoldsIsOk(PressAll(start, keys), line, start.display.x);
    ShellGetsTheLine(PressAll(start, keys), line, start.display.x);
  }

  lemma HoldsIsOk(t: Term, line: Line, col: nat)
    requires Holds(t, line, col)
    ensures LineOk(line)
  {
  }
}
