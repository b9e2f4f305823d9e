/** What a process may rely on over any interleaving of `open`, `read` and `close`: every open
    descriptor is a private cursor. */
module Cursors {
  import opened Bytes
  import opened FileSystem
  import opened Descriptors

  datatype Call =
    | OpenCall(name: seq<byte>, behind: Fd)
    | ReadCall(fd: int, n: int)
    | CloseCall(fd: int)

  ghost function Step(img: Image, t: Table, c: Call): CallResult
    requires WellFormed(img) && TableOk(t)
  {
    match c
    case OpenCall(name, behind) => OpenSpec(img, t, name, behind)
    case ReadCall(fd, n) => ReadSpec(img, t, fd, n)
    case CloseCall(fd) => CloseSpec(t, fd)
  }

  lemma StepKeepsTable(img: Image, t: Table, c: Call)
    requires WellFormed(img) && TableOk(t)
    ensures TableOk(Step(img, t, c).table)
  {
    hide WellFormed;
    hide Names;
    hide FileBytes;
    hide Word;
  }

  ghost function Run(img: Image, t: Table, calls: seq<Call>): (t': Table)
    requires WellFormed(img) && TableOk(t)
    ensures TableOk(t')
    decreases |calls|
  {
    if calls == [] then t
    else StepKeepsTable(img, t, calls[0]); Run(img, Step(img, t, calls[0]).table, calls[1..])
  }

  /** What each successful read of `fd` delivered, in order. */
  ghost function Replies(img: Image, t: Table, calls: seq<Call>, fd: nat): seq<seq<byte>>
    requires WellFormed(img) && TableOk(t)
    decreases |calls|
  {
    if calls == [] then [] else
    StepKeepsTable(img, t, calls[0]);
    var rest := Replies(img, Step(img, t, calls[0]).table, calls[1..], fd);
    if calls[0].ReadCall? && calls[0].fd == fd && Reads(t, fd, calls[0].n)
    then [Delivered(img, t[fd], calls[0].n)] + rest
    else rest
  }

  /** The byte counts asked for by the reads of `fd`. */
  function Counts(calls: seq<Call>, fd: nat): seq<nat> {
    if calls == [] then []
    else if calls[0].ReadCall? && calls[0].fd == fd && calls[0].n >= 0
    then [calls[0].n] + Counts(calls[1..], fd)
    else Counts(calls[1..], fd)
  }

  function Sum(counts: seq<nat>): nat {
    if counts == [] then 0 else counts[0] + Sum(counts[1..])
  }

  predicate StaysOpen(calls: seq<Call>, fd: nat) {
    forall i :: 0 <= i < |calls| ==> calls[i] != CloseCall(fd)
  }

  /** A call leaves every open descriptor alone except the one it reads or closes. */
  lemma OthersUntouched(img: Image, t: Table, c: Call, fd: nat)
    requires WellFormed(img) && TableOk(t)
    requires fd < TABLE_SIZE && t[fd].flags == 1
    requires !c.OpenCall? ==> c.fd != fd
    ensures Step(img, t, c).table[fd] == t[fd]
  {
  }

  /** `open` hands out the lowest free descriptor of 2..7, and leaves the table alone exactly when
      the name cannot be opened or no descriptor is free. It then fails, except that the clock
      gets a number no other call accepts, exactly when the memory behind the table does not
      look open. */
  lemma OpenOutcome(img: Image, t: Table, name: seq<byte>, behind: Fd)
    requires WellFormed(img) && TableOk(t)
    ensures var o := OpenSpec(img, t, name, behind);
      var full := forall fd :: FIRST_FD <= fd < TABLE_SIZE ==> t[fd].flags == 1;
      if Opened(img, name).None? || full then
        && o.table == t
        && o.ret == if Opened(img, name).Some? && Opened(img, name).value.op.RtcOp? && behind.flags != 1 then TABLE_SIZE else -1
      else
        && FIRST_FD <= o.ret < TABLE_SIZE
        && t[o.ret].flags == 0
        && (forall fd :: FIRST_FD <= fd < o.ret ==> t[fd].flags == 1)
        && o.table == t[o.ret := Opened(img, name).value]
    ensures forall n :: !Reads(t, TABLE_SIZE, n)
    ensures CloseSpec(t, TABLE_SIZE) == CallResult(t, -1)
  {
    hide Opened;
    var fd := LowestFree(t, FIRST_FD);
  }

  lemma FirstCall(calls: seq<Call>, fd: nat)
    requires calls != [] && StaysOpen(calls, fd)
    ensures calls[0] != CloseCall(fd) && StaysOpen(calls[1..], fd)
  {
    forall i | 0 <= i < |calls| - 1 ensures calls[1..][i] != CloseCall(fd) { assert calls[1..][i] == calls[i + 1]; }
  }

  predicate IsRead(c: Call, fd: int) { c.ReadCall? && c.fd == fd && c.n >= 0 }

  /** One call as an open descriptor sees it: a read moves it on, anything else leaves it. */
  lemma OneCall(img: Image, t: Table, calls: seq<Call>, fd: nat)
    requires WellFormed(img) && TableOk(t) && calls != []
    requires FIRST_FD <= fd < TABLE_SIZE && t[fd].flags == 1 && OpensAs(t[fd].op)
    requires calls[0] != CloseCall(fd)
    ensures var c, t' := calls[0], Step(img, t, calls[0]).table;
      && TableOk(t')
      && Run(img, t, calls) == Run(img, t', calls[1..])
      && (IsRead(c, fd) ==>
           && t'[fd] == Advanced(img, t[fd], c.n)
           && Replies(img, t, calls, fd) == [Delivered(img, t[fd], c.n)] + Replies(img, t', calls[1..], fd)
           && Counts(calls, fd) == [c.n] + Counts(calls[1..], fd))
      && (!IsRead(c, fd) ==>
           && t'[fd] == t[fd]
           && Replies(img, t, calls, fd) == Replies(img, t', calls[1..], fd)
           && Counts(calls, fd) == Counts(calls[1..], fd))
  {
    hide WellFormed;
    hide Delivered;
    hide Advanced;
    StepKeepsTable(img, t, calls[0]);
    if calls[0].OpenCall? || calls[0].fd != fd { OthersUntouched(img, t, calls[0], fd); }
  }

  lemma OneMore(part: seq<byte>, parts: seq<seq<byte>>, n: nat, counts: seq<nat>)
    ensures Concat([part] + parts) == part + Concat(parts)
    ensures Sum([n] + counts) == n + Sum(counts)
  {
    assert ([part] + parts)[1..] == parts;
    assert ([n] + counts)[1..] == counts;
  }

  /** Over any calls that do not close it, the reads of a file descriptor deliver, one after the
      other, exactly the file from the descriptor's position on, as far as was asked for. */
  lemma {:induction false} FileCursor(img: Image, t: Table, calls: seq<Call>, fd: nat)
    requires WellFormed(img) && TableOk(t)
    requires FIRST_FD <= fd < TABLE_SIZE && t[fd].flags == 1 && t[fd].op.FileOp?
    requires StaysOpen(calls, fd)
    ensures var got := Concat(Replies(img, t, calls, fd));
      && got == Slice(FileBytes(img, t[fd].inode), t[fd].pos, Sum(Counts(calls, fd)))
      && Run(img, t, calls)[fd] == t[fd].(pos := t[fd].pos + |got|)
    decreases |calls|
  {
    hide WellFormed;
    hide Step;
    hide Run;
    hide Replies;
    hide Counts;
    hide StaysOpen;
    hide Delivered;
    hide Advanced;
    hide FileBytes;
    hide Slice;
    hide Concat;
    hide Sum;
    if calls == [] {
      NoCalls(img, t, calls, fd);
      NoSlice(FileBytes(img, t[fd].inode), t[fd].pos);
    } else {
      FirstCall(calls, fd);
      OneCall(img, t, calls, fd);
      var c, rest, t' := calls[0], calls[1..], Step(img, t, calls[0]).table;
      if IsRead(c, fd) {
        FileRead(img, t[fd], c.n);
        FileCursor(img, t', rest, fd);
        var file, pos := FileBytes(img, t[fd].inode), t[fd].pos;
        OneMore(Slice(file, pos, c.n), Replies(img, t', rest, fd), c.n, Counts(rest, fd));
        SliceSlice(file, pos, c.n, Sum(Counts(rest, fd)));
      } else {
        FileCursor(img, t', rest, fd);
      }
    }
  }

  lemma NoCalls(img: Image, t: Table, calls: seq<Call>, fd: nat)
    requires WellFormed(img) && TableOk(t) && fd < TABLE_SIZE && calls == []
    ensures Run(img, t, calls) == t
    ensures Concat(Replies(img, t, calls, fd)) == [] && Sum(Counts(calls, fd)) == 0
  {
  }

  lemma NoSlice(file: seq<byte>, pos: nat)
    ensures Slice(file, pos, 0) == []
  {
  }

  lemma FileRead(img: Image, f: Fd, n: nat)
    requires WellFormed(img) && f.op.FileOp?
    ensures Delivered(img, f, n) == Slice(FileBytes(img, f.inode), f.pos, n)
    ensures Advanced(img, f, n) == f.(pos := f.pos + |Slice(FileBytes(img, f.inode), f.pos, n)|)
  {
  }

  lemma DirRead(img: Image, f: Fd, n: nat)
    requires WellFormed(img) && f.op.DirOp?
    ensures Delivered(img, f, n) == if f.pos < DirCount(img) then DirText(Names(img)[f.pos], n) else []
    ensures Advanced(img, f, n) == if f.pos < DirCount(img) then f.(pos := f.pos + 1) else f
  {
  }

  /** Over any calls that do not close it, the n-th read of a directory descriptor delivers the
      n-th name from its position on, and nothing once the directory is exhausted. */
  lemma {:induction false} DirCursor(img: Image, t: Table, calls: seq<Call>, fd: nat, j: nat)
    requires WellFormed(img) && TableOk(t)
    requires FIRST_FD <= fd < TABLE_SIZE && t[fd].flags == 1 && t[fd].op.DirOp?
    requires StaysOpen(calls, fd)
    requires j < |Counts(calls, fd)|
    ensures |Replies(img, t, calls, fd)| == |Counts(calls, fd)|
    ensures Replies(img, t, calls, fd)[j] ==
      if t[fd].pos + j < DirCount(img) then DirText(Names(img)[t[fd].pos + j], Counts(calls, fd)[j]) else []
    decreases |calls|
  {
    hide WellFormed;
    hide Step;
    hide Run;
    hide Replies;
    hide Counts;
    hide StaysOpen;
    hide Delivered;
    hide Advanced;
    hide Names;
    hide DirText;
    hide Word;
    DirReplyCount(img, t, calls, fd);
    SomeCall(calls, fd);
    FirstCall(calls, fd);
    OneCall(img, t, calls, fd);
    var c, rest, t' := calls[0], calls[1..], Step(img, t, calls[0]).table;
    if IsRead(c, fd) {
      DirRead(img, t[fd], c.n);
      if j > 0 {
        DirCursor(img, t', rest, fd, j - 1);
      }
    } else {
      DirCursor(img, t', rest, fd, j);
    }
  }

  lemma SomeCall(calls: seq<Call>, fd: nat)
    requires Counts(calls, fd) != []
    ensures calls != []
  {
  }

  lemma {:induction false} DirReplyCount(img: Image, t: Table, calls: seq<Call>, fd: nat)
    requires WellFormed(img) && TableOk(t)
    requires FIRST_FD <= fd < TABLE_SIZE && t[fd].flags == 1 && t[fd].op.DirOp?
    requires StaysOpen(calls, fd)
    ensures |Replies(img, t, calls, fd)| == |Counts(calls, fd)|
    decreases |calls|
  {
    if calls != [] {
      FirstCall(calls, fd);
      OneCall(img, t, calls, fd);
      DirReplyCount(img, Step(img, t, calls[0]).table, calls[1..], fd);
    }
  }

  /** Entry `i` is the first of that name, a regular file by its type, and the name does not make it
      anything else. */
  ghost predicate IsRegularFile(img: Image, name: seq<byte>, i: nat)
    requires WellFormed(img)
  {
    && NulFree(name) && 0 < |name| <= 32
    && i < DirCount(img) && EntryName(img, i) == name && (forall k :: 0 <= k < i ==> EntryName(img, k) != name)
    && EntryType(img, i) == 2 && name[0] != 46 && !StartsWith(name, [114, 116, 99])
  }

  lemma RegularFileOpens(img: Image, name: seq<byte>, i: nat)
    requires WellFormed(img) && IsRegularFile(img, name, i)
    ensures Opened(img, name) == Some(Fd(FileOp, EntryInode(img, i), 0, 1))
  {
    hide WellFormed;
    hide Opened;
    hide EntryName;
    hide Word;
    OpenedAs(img, name, i);
  }

  /** `close` undoes `open`: the descriptor is free again, every other one is as it was, and the
      next `open` can have it. */
  lemma CloseFrees(img: Image, t: Table, fd: nat)
    requires WellFormed(img) && TableOk(t) && 2 <= fd < 8 && t[fd].flags == 1
    ensures var o := CloseSpec(t, fd);
      && o.ret == 0 && TableOk(o.table) && o.table[fd].flags == 0
      && (forall other :: 0 <= other < 8 && other != fd ==> o.table[other] == t[other])
      && LowestFree(o.table, FIRST_FD) <= fd
      && forall n :: ReadSpec(img, o.table, fd, n) == CallResult(o.table, -1)
    ensures CloseSpec(CloseSpec(t, fd).table, fd) == CallResult(CloseSpec(t, fd).table, -1)
  {
    StepKeepsTable(img, t, CloseCall(fd));
  }

  /** Calls on a descriptor that is not open, or is out of range, fail and change nothing. */
  lemma ClosedFails(img: Image, t: Table, fd: int, n: int)
    requires WellFormed(img) && TableOk(t)
    requires fd < 0 || fd >= 8 || t[fd].flags == 0
    ensures ReadSpec(img, t, fd, n) == CallResult(t, -1) && CloseSpec(t, fd) == CallResult(t, -1)
  {
  }

  /** Opening a regular file and reading it in any pieces, whatever else the process opens, reads
      and closes in between, yields the file from its first byte on. */
  lemma OpenedFileReadsInOrder(img: Image, t: Table, name: seq<byte>, i: nat, behind: Fd, calls: seq<Call>)
    requires WellFormed(img) && TableOk(t) && IsRegularFile(img, name, i)
    requires OpenSpec(img, t, name, behind).ret >= 0
    requires StaysOpen(calls, OpenSpec(img, t, name, behind).ret)
    ensures var o := OpenSpec(img, t, name, behind);
      TableOk(o.table) &&
      Concat(Replies(img, o.table, calls, o.ret))
      == Slice(FileBytes(img, EntryInode(img, i)), 0, Sum(Counts(calls, o.ret)))
  {
    hide Opened;
    RegularFileOpens(img, name, i);
    StepKeepsTable(img, t, OpenCall(name, behind));
    var o := OpenSpec(img, t, name, behind);
    FileCursor(img, o.table, calls, o.ret);
  }
}
