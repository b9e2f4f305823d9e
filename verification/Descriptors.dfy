/** One process's descriptor table and the system calls over it (student-distrib/syscall.c and
    the file operations of student-distrib/filesys.c).
    `OpenSpec`, `ReadSpec` and `CloseSpec` say what each call does to the table; class `Process`
    is the code. */
module Descriptors {
  import opened Bytes
  import opened CStrings
  import opened FileSystem

  const TABLE_SIZE := 8
  const FIRST_FD := 2
  const DIR_ROOM := 33

  const RTC_NAME: seq<byte> := [114, 116, 99]
  const DOT_NAME: seq<byte> := [DOT]

  const KEYS := 128

  /** `NothingOp` refuses every call: `halt` leaves it on a descriptor that was still open. */
  datatype Op = StdinOp | StdoutOp | FileOp | DirOp | RtcOp | NothingOp

  datatype Fd = Fd(op: Op, inode: nat, pos: nat, flags: nat)

  type Table = seq<Fd>

  /** The table a call leaves behind and the value it returns. */
  datatype CallResult = CallResult(table: Table, ret: int)

  ghost predicate TableOk(t: Table) {
    && |t| == TABLE_SIZE
    && t[0].op.StdinOp? && t[0].flags == 1
    && t[1].op.StdoutOp? && t[1].flags == 1
    && Reusable(t)
  }

  /** What any control block holds beyond its two terminal descriptors. */
  ghost predicate Reusable(t: Table)
    requires |t| == TABLE_SIZE
  {
    forall fd :: FIRST_FD <= fd < TABLE_SIZE ==>
      t[fd].flags <= 1 && (t[fd].flags == 1 ==> !t[fd].op.StdinOp? && !t[fd].op.StdoutOp?)
  }

  predicate OpensAs(op: Op) { op.FileOp? || op.DirOp? || op.RtcOp? }

  // ----- what the calls do

  /** The lowest descriptor from `fd` on that is not open, or the table size. */
  function LowestFree(t: Table, fd: nat): (k: nat)
    requires |t| == TABLE_SIZE && fd <= TABLE_SIZE
    ensures fd <= k <= TABLE_SIZE
    ensures forall j :: fd <= j < k ==> t[j].flags == 1
    ensures k < TABLE_SIZE ==> t[k].flags != 1
    decreases TABLE_SIZE - fd
  {
    if fd == TABLE_SIZE || t[fd].flags != 1 then fd else LowestFree(t, fd + 1)
  }

  /** How `open` dispatches on the entry found for `name`: the name wins over the type. */
  function Dispatch(name: seq<byte>, d: Dentry): Option<Fd> {
    if d.fileType == 0 || Clip(name, 3) == RTC_NAME then Some(Fd(RtcOp, 0, 0, 1))
    else if d.fileType == 1 || Clip(name, 1) == DOT_NAME then Some(Fd(DirOp, 0, 0, 1))
    else if d.fileType == 2 then Some(Fd(FileOp, d.inode, 0, 1))
    else None
  }

  /** The descriptor that opening `name` sets up, if the name can be opened at all. */
  function Opened(img: Image, name: seq<byte>): Option<Fd>
    requires WellFormed(img)
  {
    if |name| > NAME_LEN || |name| == 0 then None else
    match Lookup(img, name)
    case None => None
    case Some(d) => Dispatch(name, d)
  }

  lemma OpenedShape(img: Image, name: seq<byte>)
    requires WellFormed(img) && Opened(img, name).Some?
    ensures var f := Opened(img, name).value;
      f.flags == 1 && f.pos == 0 && OpensAs(f.op)
  {
  }

  /** Does `name` start with these characters, compared as `strncmp` compares them? */
  predicate StartsWith(name: seq<byte>, prefix: seq<byte>) {
    |prefix| <= |name| && name[..|prefix|] == prefix
  }

  /** Which descriptor the first entry named `name` gets: its type number decides, unless the name
      starts with "rtc", which makes it the clock, or with a dot, which makes it a directory. A
      clock's entry is the clock whatever its name. */
  lemma OpenedAs(img: Image, name: seq<byte>, i: nat)
    requires WellFormed(img) && NulFree(name) && 0 < |name| <= 32
    requires i < DirCount(img) && EntryName(img, i) == name && forall k :: 0 <= k < i ==> EntryName(img, k) != name
    ensures var kind, rtc, dot := EntryType(img, i), StartsWith(name, [114, 116, 99]), name[0] == 46;
      Opened(img, name) ==
        if kind == 0 || rtc then Some(Fd(RtcOp, 0, 0, 1))
        else if kind == 1 || dot then Some(Fd(DirOp, 0, 0, 1))
        else if kind == 2 then Some(Fd(FileOp, EntryInode(img, i), 0, 1))
        else None
  {
    hide WellFormed;
    hide Word;
    hide EntryName;
    var k := First(Names(img), name, 0);
    assert Names(img)[i] == name;
    assert k == i;
    ClipIs(name, RTC_NAME);
    ClipIs(name, DOT_NAME);
  }

  lemma ClipIs(name: seq<byte>, prefix: seq<byte>)
    requires NulFree(name) && NulFree(prefix)
    ensures Clip(name, |prefix|) == prefix <==> StartsWith(name, prefix)
  {
    ClipTerminated(name, |prefix|);
  }

  /** A name that is in no entry, is empty, or has over 32 characters cannot be opened. */
  lemma NotOpened(img: Image, name: seq<byte>)
    requires WellFormed(img)
    requires name == [] || |name| > 32 || forall k :: 0 <= k < DirCount(img) ==> EntryName(img, k) != name
    ensures Opened(img, name) == None
  {
    hide WellFormed;
    hide Word;
    hide EntryName;
    var k := First(Names(img), name, 0);
    assert k < DirCount(img) ==> Names(img)[k] == EntryName(img, k);
  }

  /** On a full table the clock alone is still opened: behind the table, as number 8, unless what
      stands there looks open. No call accepts that number. */
  function OpenSpec(img: Image, t: Table, name: seq<byte>, behind: Fd): CallResult
    requires WellFormed(img) && |t| == TABLE_SIZE
  {
    var fd := LowestFree(t, FIRST_FD);
    match Opened(img, name)
    case None => CallResult(t, -1)
    case Some(f) =>
      if fd < TABLE_SIZE then CallResult(t[fd := f], fd)
      else CallResult(t, if f.op.RtcOp? && behind.flags != 1 then TABLE_SIZE else -1)
  }

  /** What a directory read stores for a name: cut at the caller's count, padded with NULs. */
  function DirText(name: seq<byte>, n: nat): (s: seq<byte>)
    ensures |s| == |name|
    ensures n >= |name| ==> s == name
  {
    seq(|name|, j requires 0 <= j < |name| => if j < n then name[j] else NUL)
  }

  /** The bytes a read of an open file, directory or clock delivers; its return value is their
      number. */
  ghost function Delivered(img: Image, f: Fd, n: nat): seq<byte>
    requires WellFormed(img)
  {
    match f.op
    case FileOp => Slice(FileBytes(img, f.inode), f.pos, n)
    case DirOp => if f.pos < DirCount(img) then DirText(Names(img)[f.pos], n) else []
    case _ => []
  }

  /** The descriptor after that read: a file advances by bytes, a directory by entries. */
  ghost function Advanced(img: Image, f: Fd, n: nat): Fd
    requires WellFormed(img)
  {
    match f.op
    case FileOp => f.(pos := f.pos + |Delivered(img, f, n)|)
    case DirOp => if f.pos < DirCount(img) then f.(pos := f.pos + 1) else f
    case _ => f
  }

  /** A read leaves the table sound, and a clock delivers nothing. */
  lemma AdvancedOk(img: Image, t: Table, fd: nat, n: nat)
    requires WellFormed(img) && TableOk(t) && fd < TABLE_SIZE
    ensures TableOk(t[fd := Advanced(img, t[fd], n)])
    ensures !t[fd].op.FileOp? && !t[fd].op.DirOp? ==> Delivered(img, t[fd], n) == [] && Advanced(img, t[fd], n) == t[fd]
  {
  }

  predicate Reads(t: Table, fd: int, n: int)
    requires |t| == TABLE_SIZE
  {
    0 <= fd < TABLE_SIZE && n >= 0 && t[fd].flags != 0 && t[fd].op != StdoutOp && t[fd].op != NothingOp
  }

  /** How many bytes of the buffer a read may write: a directory read clears 33 first, and a
      keyboard read puts a NUL behind the line. */
  function Touched(t: Table, fd: int, n: int): nat
    requires |t| == TABLE_SIZE
  {
    if !Reads(t, fd, n) then 0
    else if t[fd].op.DirOp? then Max(n, DIR_ROOM)
    else if t[fd].op.StdinOp? then (if n == 0 then 0 else Min(n, KEYS) + 1)
    else n
  }

  lemma TouchedBytes(t: Table, fd: int, n: int)
    requires TableOk(t) && Reads(t, fd, n)
    ensures t[fd].op.DirOp? ==> Touched(t, fd, n) == Max(n, 33)
    ensures t[fd].op.FileOp? || t[fd].op.RtcOp? ==> Touched(t, fd, n) == n
    ensures fd == 0 ==> Touched(t, fd, n) <= Min(n, 128) + 1
  {
  }

  ghost function ReadSpec(img: Image, t: Table, fd: int, n: int): CallResult
    requires WellFormed(img) && |t| == TABLE_SIZE
  {
    if !Reads(t, fd, n) then CallResult(t, -1)
    else if t[fd].op.StdinOp? then CallResult(t, Min(n, KEYS))
    else CallResult(t[fd := Advanced(img, t[fd], n)], |Delivered(img, t[fd], n)|)
  }

  /** The rates `set_frequency` knows. */
  predicate KnownRate(rate: nat) {
    rate in {2, 4, 8, 16, 32, 64, 128, 256, 512, 1024}
  }

  /** What a write returns. */
  function WriteReturns(t: Table, fd: int, buf: seq<byte>, n: int): int
    requires |t| == TABLE_SIZE && n <= |buf|
  {
    if !(0 <= fd < TABLE_SIZE) || n < 0 || t[fd].flags == 0 then -1
    else if t[fd].op.StdoutOp? then n
    else if t[fd].op.RtcOp? && FIRST_FD <= fd && n == 4 && KnownRate(Word(buf, 0)) then 4
    else -1
  }

  /** Writes reach nothing but the terminal and the clock. */
  lemma WritesRefused(t: Table, fd: int, buf: seq<byte>, n: int)
    requires TableOk(t) && n <= |buf|
    requires 0 <= fd < 8 && n >= 0 && t[fd].flags == 1 ==> t[fd].op != StdoutOp && t[fd].op != RtcOp
    ensures WriteReturns(t, fd, buf, n) == -1
  {
    hide Word;
  }

  function Power2(k: nat): nat { if k == 0 then 1 else 2 * Power2(k - 1) }

  /** The clock's rates are the powers of two from 2 to 1024. */
  lemma RatesArePowers(rate: nat)
    ensures KnownRate(rate) <==> exists k: nat :: 1 <= k <= 10 && rate == Power2(k)
  {
    assert Power2(1) == 2 && Power2(2) == 4 && Power2(3) == 8 && Power2(4) == 16 && Power2(5) == 32;
    assert Power2(6) == 64 && Power2(7) == 128 && Power2(8) == 256 && Power2(9) == 512 && Power2(10) == 1024;
    if k: nat :| 1 <= k <= 10 && rate == Power2(k) {
      assert k in {1, 2, 3, 4, 5, 6, 7, 8, 9, 10};
    }
  }

  /** A directory read of fewer bytes than the name has delivers that many of them and NULs. */
  lemma DirTextIs(name: seq<byte>, n: nat)
    ensures n < |name| ==> DirText(name, n)[..n] == name[..n]
    ensures n < |name| ==> forall j :: n <= j < |name| ==> DirText(name, n)[j] == 0
  {
  }

  function CloseSpec(t: Table, fd: int): CallResult
    requires |t| == TABLE_SIZE
  {
    if FIRST_FD <= fd < TABLE_SIZE && t[fd].flags == 1
    then CallResult(t[fd := Fd(t[fd].op, 0, 0, 0)], 0)
    else CallResult(t, -1)
  }

  lemma NameShape(img: Image, i: nat)
    requires WellFormed(img) && i < DirCount(img)
    ensures NulFree(Names(img)[i]) && |Names(img)[i]| <= NAME_LEN
  {
  }

  // ----- the code

  class Process {
    const img: Image
    const file: array<Fd>
    var out: seq<byte>   // every byte handed to terminal_write, in order

    ghost predicate Valid()
      reads file
    {
      WellFormed(img) && file.Length == TABLE_SIZE && TableOk(file[..])
    }

    /** A process as `execute` leaves it in a control block that held `before`: the terminal
        descriptors are set up, the others stay as they were. */
    constructor (img: Image, before: Table)
      requires WellFormed(img) && |before| == TABLE_SIZE && Reusable(before)
      ensures Valid() && fresh(file) && this.img == img && out == []
      ensures forall fd :: FIRST_FD <= fd < TABLE_SIZE ==> file[fd] == before[fd]
    {
      this.img := img;
      file := new Fd[TABLE_SIZE](i requires 0 <= i < TABLE_SIZE =>
        if i == 0 then Fd(StdinOp, before[0].inode, 0, 1)
        else if i == 1 then Fd(StdoutOp, before[1].inode, 0, 1)
        else before[i]);
      out := [];
    }

    /** `open`. `behind` is the memory just behind the table, which the code uses as an entry 8
        when every descriptor is taken; `behind'` is what it holds afterwards. */
    method Open(name: seq<byte>, behind: Fd) returns (r: int, behind': Fd)
      requires Valid() && NulFree(name)
      modifies file
      ensures Valid()
      ensures CallResult(file[..], r) == OpenSpec(img, old(file[..]), name, behind)
      ensures behind' == if r == TABLE_SIZE then Opened(img, name).value else behind
    {
      hide WellFormed;
      hide Clip;
      hide Dispatch;
      hide Lookup;
      hide Word;
      behind' := behind;
      if |name| > NAME_LEN || |name| == 0 {
        return -1, behind;
      }
      ClipTerminated(name, NAME_LEN);
      assert name[..|name|] == name;
      var found := ReadDentryByName(img, name + [NUL]);
      assert found.Some? ==> Opened(img, name) == Dispatch(name, found.value);
      if found.None? {
        return -1, behind;
      }
      var fd := FIRST_FD;
      while fd < TABLE_SIZE && file[fd].flags == 1
        invariant FIRST_FD <= fd <= TABLE_SIZE
        invariant LowestFree(file[..], FIRST_FD) == LowestFree(file[..], fd)
      {
        fd := fd + 1;
      }
      var flags := if fd < TABLE_SIZE then file[fd].flags else behind.flags;
      if flags == 1 {
        return -1, behind;
      }
      var entry := ChooseEntry(name, found.value);
      // open_dir and open_file look for any descriptor with zero flags
      var free := AnyFree();
      if entry.None? || (entry.value.op != RtcOp && !free) {
        return -1, behind;
      }
      if fd < TABLE_SIZE {
        file[fd] := entry.value;
      } else {
        behind' := entry.value;
      }
      return fd, behind';
    }

    method ChooseEntry(name: seq<byte>, d: Dentry) returns (r: Option<Fd>)
      requires NulFree(name)
      ensures r == Dispatch(name, d)
      ensures r.Some? ==> r.value.flags == 1 && OpensAs(r.value.op)
    {
      hide Clip;
      ClipTerminated(name, 3);
      ClipTerminated(name, 1);
      ClipTerminated(RTC_NAME, 3);
      ClipTerminated(DOT_NAME, 1);
      var rtc := Strncmp(name + [NUL], RTC_NAME + [NUL], 3);
      if d.fileType == 0 || rtc == 0 {
        return Some(Fd(RtcOp, 0, 0, 1));
      }
      var dot := Strncmp(name + [NUL], DOT_NAME + [NUL], 1);
      if d.fileType == 1 || dot == 0 {
        return Some(Fd(DirOp, 0, 0, 1));
      }
      if d.fileType == 2 {
        return Some(Fd(FileOp, d.inode, 0, 1));
      }
      return None;
    }

    method AnyFree() returns (free: bool)
      requires Valid()
      ensures free <==> exists i :: 0 <= i < TABLE_SIZE && file[i].flags == 0
    {
      var i := 0;
      while i < TABLE_SIZE
        invariant 0 <= i <= TABLE_SIZE
        invariant forall j :: 0 <= j < i ==> file[j].flags != 0
      {
        if file[i].flags == 0 { return true; }
        i := i + 1;
      }
      return false;
    }

    /** `read` and the read operations behind it. `typed` is what a read of the keyboard finds
        there: the line with its newline, as `terminal_read` cuts it to the count. */
    method Read(fd: int, buf: array<byte>, at: nat, n: int, typed: seq<byte>) returns (r: int)
      requires Valid()
      requires at + Touched(file[..], fd, n) <= buf.Length
      requires fd == 0 && n >= 0 ==> |typed| == Min(n, KEYS)
      modifies file, buf
      ensures Valid()
      ensures CallResult(file[..], r) == ReadSpec(img, old(file[..]), fd, n)
      ensures r >= 0 ==> 0 <= fd < TABLE_SIZE && at + r <= buf.Length && buf[at..at + r] == if fd == 0 then typed else Delivered(img, old(file[fd]), n)
      ensures forall i :: 0 <= i < buf.Length && !(at <= i < at + Touched(old(file[..]), fd, n)) ==> buf[i] == old(buf[i])
    {
      hide WellFormed;
      hide Advanced;
      hide Delivered;
      if fd < 0 || fd > 7 || n < 0 {
        return -1;
      }
      if file[fd].flags == 0 {
        return -1;
      }
      AdvancedOk(img, file[..], fd, n);
      match file[fd].op {
        case StdinOp => r := ReadKeys(buf, at, n, typed);
        case StdoutOp => r := -1;
        case NothingOp => r := -1;
        case RtcOp => r := 0;
        case FileOp => r := ReadFile(fd, buf, at, n);
        case DirOp => r := ReadDir(fd, buf, at, n);
      }
    }

    /** `terminal_read` as the caller sees it. */
    method ReadKeys(buf: array<byte>, at: nat, n: nat, typed: seq<byte>) returns (r: nat)
      requires |typed| == Min(n, KEYS) && at + (if n == 0 then 0 else |typed| + 1) <= buf.Length
      modifies buf
      ensures r == |typed| && buf[at..at + r] == typed
      ensures forall i :: 0 <= i < buf.Length && !(at <= i <= at + |typed|) ==> buf[i] == old(buf[i])
      ensures n == 0 ==> buf[..] == old(buf[..])
    {
      if n == 0 {
        return 0;
      }
      var i := 0;
      while i < |typed|
        invariant i <= |typed|
        invariant forall k :: at <= k < at + i ==> buf[k] == typed[k - at]
        invariant forall k :: 0 <= k < buf.Length && !(at <= k < at + i) ==> buf[k] == old(buf[k])
      {
        buf[at + i] := typed[i];
        i := i + 1;
      }
      buf[at + i] := NUL;
      SliceIs(buf, at, typed);
      return i;
    }

    method ReadFile(fd: nat, buf: array<byte>, at: nat, n: nat) returns (r: nat)
      requires Valid()
      requires fd < TABLE_SIZE && file[fd].op.FileOp? && file[fd].flags == 1
      requires at + n <= buf.Length
      modifies file, buf
      ensures file[..] == old(file[..])[fd := Advanced(img, old(file[fd]), n)]
      ensures r == |Delivered(img, old(file[fd]), n)|
      ensures at + r <= buf.Length && buf[at..at + r] == Delivered(img, old(file[fd]), n)
      ensures forall i :: 0 <= i < buf.Length && !(at <= i < at + n) ==> buf[i] == old(buf[i])
    {
      hide WellFormed;
      hide FileBytes;
      var f := file[fd];
      r := ReadData(img, f.inode, f.pos, buf, at, n);
      file[fd] := f.(pos := f.pos + r);
    }

    method ReadDir(fd: nat, buf: array<byte>, at: nat, n: nat) returns (r: nat)
      requires Valid()
      requires fd < TABLE_SIZE && file[fd].op.DirOp? && file[fd].flags == 1
      requires at + Max(n, DIR_ROOM) <= buf.Length
      modifies file, buf
      ensures file[..] == old(file[..])[fd := Advanced(img, old(file[fd]), n)]
      ensures r == |Delivered(img, old(file[fd]), n)|
      ensures at + r <= buf.Length && buf[at..at + r] == Delivered(img, old(file[fd]), n)
      ensures forall i :: 0 <= i < buf.Length && !(at <= i < at + Max(n, DIR_ROOM)) ==> buf[i] == old(buf[i])
    {
      hide Word;
      var f := file[fd];
      var found := ReadDentryByIndex(img, f.pos);
      if found.None? {
        return 0;
      }
      var fileName := found.value.fileName;
      StrncpyFieldText(img[EntryAddr(f.pos)..], NAME_LEN);
      assert CStr(fileName) == Names(img)[f.pos];
      StoreName(buf, at, fileName, n);
      file[fd] := f.(pos := f.pos + 1);
      // the name ends at its first NUL, or fills the field
      r := IndexOf(fileName, NUL);
    }

    /** The buffer half of `read_dir`: clear 33 bytes, then `strncpy` the caller's count. */
    method StoreName(buf: array<byte>, at: nat, fileName: seq<byte>, n: nat)
      requires |fileName| == NAME_LEN
      requires at + Max(n, DIR_ROOM) <= buf.Length
      modifies buf
      ensures buf[at..at + IndexOf(fileName, NUL)] == DirText(CStr(fileName), n)
      ensures forall i :: 0 <= i < buf.Length && !(at <= i < at + Max(n, DIR_ROOM)) ==> buf[i] == old(buf[i])
    {
      var i := 0;
      while i < DIR_ROOM
        invariant 0 <= i <= DIR_ROOM
        invariant forall k :: 0 <= k < buf.Length && !(at <= k < at + i) ==> buf[k] == old(buf[k])
        invariant forall k :: at <= k < at + i ==> buf[k] == NUL
      {
        buf[at + i] := NUL;
        i := i + 1;
      }
      // the field need not be terminated; the stack behind it holds a NUL somewhere
      var behind := BehindField();
      ghost var len := IndexOf(fileName, NUL);
      assert forall k :: 0 <= k < len ==> (fileName + behind)[k] == fileName[k];
      assert (fileName + behind)[|fileName + behind| - 1] == NUL;
      assert IndexOf(fileName + behind, NUL) >= len;
      Strncpy(buf, at, fileName + behind, n);
      SliceIs(buf, at, DirText(CStr(fileName), n));
    }

    method BehindField() returns (behind: seq<byte>)
      ensures behind != [] && behind[|behind| - 1] == NUL
    {
      behind := *;
      if behind == [] || behind[|behind| - 1] != NUL {
        behind := behind + [NUL];
      }
    }

    /** A read of 32 bytes from an open directory, as `ls` and `grep` make it. */
    method ReadEntry(fd: nat, buf: array<byte>) returns (cnt: nat)
      requires Valid() && buf.Length == DIR_ROOM
      requires fd < TABLE_SIZE && file[fd].op.DirOp? && file[fd].flags == 1
      modifies file, buf
      ensures Valid()
      ensures var i := old(file[fd].pos);
        if i < DirCount(img) then
          && cnt == |Names(img)[i]| <= NAME_LEN && NulFree(Names(img)[i])
          && buf[..cnt] == Names(img)[i]
          && file[..] == old(file[..])[fd := old(file[fd]).(pos := i + 1)]
        else
          cnt == 0 && file[..] == old(file[..])
    {
      hide WellFormed;
      hide Word;
      ghost var i := file[fd].pos;
      if i < DirCount(img) { NameShape(img, i); }
      var r := Read(fd, buf, 0, NAME_LEN, []);
      assert buf[0..0 + r] == buf[..r];
      return r;
    }

    /** `close` */
    method Close(fd: int) returns (r: int)
      requires Valid()
      modifies file
      ensures Valid()
      ensures CallResult(file[..], r) == CloseSpec(old(file[..]), fd)
    {
      hide WellFormed;
      if fd < FIRST_FD || fd > 7 {
        return -1;
      }
      if file[fd].flags != 1 {
        return -1;
      }
      file[fd] := Fd(file[fd].op, 0, 0, 0);
      return 0;
    }

    /** `write` and the write operations behind it. Only descriptor 1 reaches the terminal, and it
        takes every byte. */
    method Write(fd: int, buf: seq<byte>, n: int) returns (r: int)
      requires Valid() && n <= |buf|
      modifies `out
      ensures r == WriteReturns(file[..], fd, buf, n)
      ensures fd == 1 && n >= 0 ==> r == n && out == old(out) + buf[..n]
      ensures fd != 1 || n < 0 ==> out == old(out)
    {
      hide WellFormed;
      if fd < 0 || fd > 7 || n < 0 {
        return -1;
      }
      if file[fd].flags == 0 {
        return -1;
      }
      match file[fd].op {
        case StdoutOp =>
          PrintBytes(buf, n);
          r := n;
        case RtcOp => r := SetRate(fd, buf, n);
        case _ => r := -1;
      }
    }

    /** The loop of `terminal_write`. */
    method PrintBytes(buf: seq<byte>, n: nat)
      requires n <= |buf|
      modifies `out
      ensures out == old(out) + buf[..n]
    {
      var i := 0;
      while i < n
        invariant i <= n && out == old(out) + buf[..i]
      {
        out := out + [buf[i]];
        i := i + 1;
      }
    }

    /** `rtc_write` */
    method SetRate(fd: nat, buf: seq<byte>, n: nat) returns (r: int)
      requires n <= |buf|
      ensures r == if FIRST_FD <= fd && n == 4 && KnownRate(Word(buf, 0)) then 4 else -1
    {
      hide Word;
      if fd == 0 || fd == 1 || n != 4 {
        return -1;
      }
      if !KnownRate(Word(buf, 0)) {
        return -1;
      }
      return n;
    }

    /** `ece391_fdputs(1, s)`, where `s` is the memory from the text on. */
    method Puts(s: seq<byte>)
      requires Valid() && IndexOf(s, NUL) < |s|
      modifies `out
      ensures out == old(out) + CStr(s)
    {
      hide WellFormed;
      hide TableOk;
      hide WriteReturns;
      var len := 0;
      while s[len] != NUL
        invariant len <= IndexOf(s, NUL)
        decreases |s| - len
      {
        len := len + 1;
      }
      IndexOfIs(s, NUL, len);
      var r := Write(1, s, len);
    }

    /** The same for a text with its terminator. */
    method Say(text: seq<byte>)
      requires Valid() && NulFree(text)
      modifies `out
      ensures out == old(out) + text
    {
      CStrTerminated(text);
      Puts(text + [NUL]);
    }
  }
}
