/** The text console (student-distrib/lib.c: clear, putc, scroll_down) on one video page, and
    what a reader sees on it. A page holds a character and an attribute byte for each of 80 by 25
    cells; its last 96 bytes are not displayed. */
module Screen {
  import opened Bytes

  const COLS := 80
  const ROWS := 25
  const CELLS := 2000
  const PAGE := 4096
  const ATTRIB: byte := 7

  /** A video page and the cursor. */
  datatype Display = Display(page: seq<byte>, x: nat, y: nat)

  ghost predicate DisplayOk(d: Display) {
    |d.page| == PAGE && d.x < COLS && d.y < ROWS
  }

  function Cursor(d: Display): nat { COLS * d.y + d.x }

  function Chars(page: seq<byte>): (r: seq<byte>)
    requires |page| == PAGE
    ensures |r| == CELLS
  {
    seq(CELLS, k requires 0 <= k < CELLS => page[2 * k])
  }

  function Attributes(page: seq<byte>): (r: seq<byte>)
    requires |page| == PAGE
    ensures |r| == CELLS
  {
    seq(CELLS, k requires 0 <= k < CELLS => page[2 * k + 1])
  }

  predicate Breaks(c: byte) { c == NEWLINE || c == RETURN }

  /** Every character one row up, the last row cleared to NULs; the attributes stay. */
  function Scrolled(page: seq<byte>): (r: seq<byte>)
    requires |page| == PAGE
    ensures |r| == PAGE
  {
    seq(PAGE, i requires 0 <= i < PAGE =>
      if i < 2 * CELLS && i % 2 == 0 then (if i < 2 * (CELLS - COLS) then page[i + 2 * COLS] else NUL) else page[i])
  }

  function NextRow(d: Display): Display
    requires |d.page| == PAGE
  {
    if d.y < ROWS - 1 then Display(d.page, 0, d.y + 1) else Display(Scrolled(d.page), 0, d.y)
  }

  /** `putc` */
  function Put(d: Display, c: byte): (r: Display)
    requires DisplayOk(d)
    ensures DisplayOk(r)
  {
    if Breaks(c) then NextRow(d)
    else
      var page := d.page[2 * Cursor(d) := c][2 * Cursor(d) + 1 := ATTRIB];
      if d.x + 1 < COLS then Display(page, d.x + 1, d.y) else NextRow(d.(page := page))
  }

  function PutAll(d: Display, s: seq<byte>): (r: Display)
    requires DisplayOk(d)
    ensures DisplayOk(r)
    decreases |s|
  {
    if s == [] then d else PutAll(Put(d, s[0]), s[1..])
  }

  /** `clear` leaves the cursor where it is. */
  function Cleared(page: seq<byte>): (r: seq<byte>)
    requires |page| == PAGE
    ensures |r| == PAGE
  {
    seq(PAGE, i requires 0 <= i < PAGE => if i >= 2 * CELLS then page[i] else if i % 2 == 0 then SPACE else ATTRIB)
  }

  // ----- the characters as one long row

  lemma CharsOfScrolled(page: seq<byte>)
    requires |page| == PAGE
    ensures Chars(Scrolled(page)) == Chars(page)[COLS..] + seq(COLS, _ => NUL)
    ensures Attributes(Scrolled(page)) == Attributes(page)
  {
  }

  lemma CharsOfPut(page: seq<byte>, k: nat, c: byte)
    requires |page| == PAGE && k < CELLS
    ensures Chars(page[2 * k := c][2 * k + 1 := ATTRIB]) == Chars(page)[k := c]
    ensures Attributes(page[2 * k := c][2 * k + 1 := ATTRIB]) == Attributes(page)[k := ATTRIB]
  {
  }

  /** What a step does to the characters: it writes at the cursor and moves on, and whenever the
      cursor would leave the last row everything moves up a row. */
  lemma PutOnChars(d: Display, c: byte)
    requires DisplayOk(d)
    ensures var r, at := Put(d, c), Cursor(d);
      var breaks := c == 10 || c == 13;
      var written := if breaks then Chars(d.page) else Chars(d.page)[at := c];
      var next := if breaks then at - d.x + COLS else at + 1;
      && (next < CELLS ==> Chars(r.page) == written && Cursor(r) == next)
      && (next >= CELLS ==> Chars(r.page) == written[COLS..] + seq(COLS, _ => NUL) && Cursor(r) == next - COLS)
      && ((forall k :: 0 <= k < CELLS ==> Attributes(d.page)[k] == ATTRIB) ==> (forall k :: 0 <= k < CELLS ==> Attributes(r.page)[k] == ATTRIB))
  {
    var page := d.page[2 * Cursor(d) := c][2 * Cursor(d) + 1 := ATTRIB];
    CharsOfPut(d.page, Cursor(d), c);
    CharsOfScrolled(d.page);
    CharsOfScrolled(page);
    hide Chars;
    hide Attributes;
    hide Scrolled;
  }

  // ----- the log

  /** The cells a text takes up on an unbounded console: one per character, and for a line break
      the cells up to the end of the row. Rows 0..24 start as spaces, later ones as NULs. */
  function Blank(i: nat): byte { if i < CELLS then SPACE else NUL }

  function RowEnd(i: nat): nat { i - i % COLS + COLS }

  function RestOfRow(n: nat): (r: seq<byte>)
    ensures |r| == RowEnd(n) - n
    ensures forall j :: 0 <= j < |r| ==> r[j] == Blank(n + j)
  {
    seq<byte>(RowEnd(n) - n, j requires 0 <= j < RowEnd(n) - n => Blank(n + j))
  }

  function Logged(log: seq<byte>, c: byte): seq<byte> {
    if Breaks(c) then log + RestOfRow(|log|) else log + [c]
  }

  function Log(s: seq<byte>): seq<byte> {
    if s == [] then [] else Logged(Log(s[..|s| - 1]), s[|s| - 1])
  }

  /** The rows that have scrolled off above the screen, in cells: the cursor's row is the last. */
  function Above(cells: nat): nat { COLS * Max(0, cells / COLS - (ROWS - 1)) }

  function LogCell(log: seq<byte>, i: nat): byte { if i < |log| then log[i] else Blank(i) }

  ghost predicate Window(chars: seq<byte>, log: seq<byte>, above: nat) {
    |chars| == CELLS && forall i :: 0 <= i < CELLS ==> chars[i] == LogCell(log, i + above)
  }

  /** The display is the window of 25 rows on the log that ends with the cursor's row. */
  ghost predicate Shows(d: Display, log: seq<byte>) {
    && DisplayOk(d)
    && Cursor(d) + Above(|log|) == |log|
    && Window(Chars(d.page), log, Above(|log|))
    && (forall i :: 0 <= i < CELLS ==> Attributes(d.page)[i] == 7)
  }

  lemma StartShows(page: seq<byte>)
    requires |page| == PAGE
    ensures Shows(Display(Cleared(page), 0, 0), [])
    ensures forall k :: 0 <= k < 2000 ==> Chars(Cleared(page))[k] == 32 && Attributes(Cleared(page))[k] == 7
  {
  }

  lemma WindowOfWritten(chars: seq<byte>, log: seq<byte>, above: nat, c: byte)
    requires Window(chars, log, above) && above <= |log| < above + CELLS
    ensures Window(chars[|log| - above := c], log + [c], above)
  {
  }

  lemma WindowOfBreak(chars: seq<byte>, log: seq<byte>, above: nat)
    requires Window(chars, log, above)
    ensures Window(chars, log + RestOfRow(|log|), above)
  {
    hide RestOfRow;
    hide RowEnd;
  }

  lemma WindowOfScrolled(chars: seq<byte>, log: seq<byte>, above: nat)
    requires Window(chars, log, above) && |log| == above + CELLS
    ensures Window(chars[COLS..] + seq(COLS, _ => NUL), log, above + COLS)
  {
  }

  lemma PutShows(d: Display, log: seq<byte>, c: byte)
    requires Shows(d, log)
    ensures Shows(Put(d, c), Logged(log, c))
  {
    hide Put;
    hide Chars;
    hide Attributes;
    hide RestOfRow;
    hide Above;
    hide RowEnd;
    hide Window;
    PutOnChars(d, c);
    var above, chars := Above(|log|), Chars(d.page);
    RowArithmetic(|log|, d.x, d.y);
    if Breaks(c) {
      WindowOfBreak(chars, log, above);
      if Cursor(d) - d.x + COLS >= CELLS { WindowOfScrolled(chars, Logged(log, c), above); }
    } else {
      WindowOfWritten(chars, log, above, c);
      if Cursor(d) + 1 >= CELLS { WindowOfScrolled(chars[Cursor(d) := c], Logged(log, c), above); }
    }
  }

  lemma RowArithmetic(n: nat, x: nat, y: nat)
    requires x < COLS && y < ROWS && COLS * y + x + Above(n) == n
    ensures n % COLS == x && RowEnd(n) == n - x + COLS
    ensures Above(n + 1) == if COLS * y + x + 1 < CELLS then Above(n) else Above(n) + COLS
    ensures Above(n - x + COLS) == if COLS * y + COLS < CELLS then Above(n) else Above(n) + COLS
  {
  }

  /** Whatever is printed on a cleared screen from its first cell, the screen is the last-25-row
      window of the log of everything printed, the cursor is where the log ends, and every
      attribute is the default. */
  lemma {:induction false} PrintedShows(page: seq<byte>, s: seq<byte>)
    requires |page| == PAGE
    ensures Shows(PutAll(Display(Cleared(page), 0, 0), s), Log(s))
    decreases |s|
  {
    hide Shows;
    hide Cleared;
    hide Put;
    var start := Display(Cleared(page), 0, 0);
    if s == [] {
      StartShows(page);
    } else {
      var front := s[..|s| - 1];
      PrintedShows(page, front);
      assert s == front + [s[|s| - 1]];
      PutAllMore(start, front, s[|s| - 1]);
      PutShows(PutAll(start, front), Log(front), s[|s| - 1]);
    }
  }

  lemma {:induction false} PutAllMore(d: Display, s: seq<byte>, c: byte)
    requires DisplayOk(d)
    ensures PutAll(d, s + [c]) == Put(PutAll(d, s), c)
    decreases |s|
  {
    hide Put;
    if s == [] {
      assert [] + [c] == [c] && [c][1..] == [];
    } else {
      assert (s + [c])[1..] == s[1..] + [c];
      PutAllMore(Put(d, s[0]), s[1..], c);
    }
  }

  /** A text without line breaks that fits on the row stays on it. */
  lemma {:induction false} PutInRow(d: Display, s: seq<byte>)
    requires DisplayOk(d) && d.x + |s| < COLS && forall i :: 0 <= i < |s| ==> !Breaks(s[i])
    ensures PutAll(d, s).x == d.x + |s| && PutAll(d, s).y == d.y
    decreases |s|
  {
    if s != [] { PutInRow(Put(d, s[0]), s[1..]); }
  }
}
