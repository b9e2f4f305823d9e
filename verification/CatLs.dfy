/** `cat` and `ls` (syscalls/ece391cat.c, syscalls/ece391ls.c): read a piece, write it out. */
module CatLs {
  import opened Bytes
  import opened FileSystem
  import opened Descriptors
  import opened Messages

  const CHUNK := 1024

  /** The names from entry `i` on, run together up to the first empty one. */
  ghost function RunTogether(img: Image, i: nat): seq<byte>
    requires WellFormed(img)
    decreases DirCount(img) - i
  {
    if i >= DirCount(img) || Names(img)[i] == [] then [] else Names(img)[i] + RunTogether(img, i + 1)
  }

  /** Everything that reading a descriptor until it delivers nothing delivers. */
  ghost function ToEnd(img: Image, f: Fd): seq<byte>
    requires WellFormed(img)
  {
    match f.op
    case FileOp => if f.pos <= |FileBytes(img, f.inode)| then FileBytes(img, f.inode)[f.pos..] else []
    case DirOp => RunTogether(img, f.pos)
    case _ => []
  }

  /** How far a descriptor still is from its end. */
  ghost function Left(img: Image, f: Fd): nat
    requires WellFormed(img)
  {
    match f.op
    case FileOp => Max(0, |FileBytes(img, f.inode)| - f.pos)
    case DirOp => Max(0, DirCount(img) - f.pos)
    case _ => 0
  }

  lemma ToEndStep(img: Image, f: Fd, n: nat)
    requires WellFormed(img) && n >= NAME_LEN && OpensAs(f.op)
    ensures var got := Delivered(img, f, n); var f' := Advanced(img, f, n);
      && |got| <= n && f' == f.(pos := f'.pos)
      && (got == [] ==> ToEnd(img, f) == [])
      && (got != [] ==> ToEnd(img, f) == got + ToEnd(img, f') && Left(img, f') < Left(img, f))
  {
    hide WellFormed;
    hide FileBytes;
    hide Word;
    if f.op.DirOp? && f.pos < DirCount(img) { NameShape(img, f.pos); }
  }

  /** `cat`'s `main`. `args` is what `getargs` delivered (nothing when it failed). A file comes
      out whole, a directory as its names run together, the clock as nothing. */
  method Cat(p: Process, args: seq<byte>, behind: Fd) returns (status: int)
    requires p.Valid() && NulFree(args)
    modifies p.file, p`out
    ensures args == [] ==> status == 3 && p.out == old(p.out) + NO_ARGUMENTS
    ensures args != [] ==>
      var o := OpenSpec(p.img, old(p.file[..]), args, behind);
      if o.ret < 0 then status == 2 && p.out == old(p.out) + NOT_FOUND
      else if o.ret == TABLE_SIZE then status == 3 && p.out == old(p.out) + READ_FAILED
      else status == 0 && p.out == old(p.out) + ToEnd(p.img, Opened(p.img, args).value)
  {
    hide WellFormed;
    hide Opened;
    hide ToEnd;
    hide FileBytes;
    if args == [] {
      p.Say(NO_ARGUMENTS);
      return 3;
    }
    var fd, _ := p.Open(args, behind);
    if fd == -1 {
      p.Say(NOT_FOUND);
      return 2;
    }
    OpenedShape(p.img, args);
    status := CopyOut(p, fd);
  }

  /** The loop of `cat` over what it opened. */
  method CopyOut(p: Process, fd: nat) returns (status: int)
    requires p.Valid() && FIRST_FD <= fd <= TABLE_SIZE
    requires fd < TABLE_SIZE ==> p.file[fd].flags == 1 && OpensAs(p.file[fd].op)
    modifies p.file, p`out
    ensures fd < TABLE_SIZE ==> status == 0 && p.out == old(p.out) + ToEnd(p.img, old(p.file[fd]))
    ensures fd == TABLE_SIZE ==> status == 3 && p.out == old(p.out) + READ_FAILED
  {
    hide WellFormed;
    hide TableOk;
    hide ToEnd;
    hide Left;
    var buf := new byte[CHUNK];
    if fd == TABLE_SIZE {
      var r := p.Read(fd, buf, 0, CHUNK, []);
      p.Say(READ_FAILED);
      return 3;
    }
    ghost var f := p.file[fd];
    var cnt: nat := ReadPiece(p, fd, buf);
    while cnt != 0
      invariant p.Valid() && cnt <= CHUNK
      invariant p.file[fd].flags == 1 && OpensAs(p.file[fd].op)
      invariant cnt == 0 ==> ToEnd(p.img, f) == []
      invariant cnt != 0 ==> ToEnd(p.img, f) == buf[..cnt] + ToEnd(p.img, p.file[fd])
      invariant p.out + ToEnd(p.img, f) == old(p.out) + ToEnd(p.img, old(p.file[fd]))
      decreases cnt != 0, Left(p.img, p.file[fd])
    {
      ghost var before := p.out;
      var written := p.Write(1, buf[..], cnt);
      assert buf[..][..cnt] == buf[..cnt];
      assert before + (buf[..cnt] + ToEnd(p.img, p.file[fd])) == before + buf[..cnt] + ToEnd(p.img, p.file[fd]);
      f := p.file[fd];
      cnt := ReadPiece(p, fd, buf);
    }
    return 0;
  }

  /** One read of `cat`: the next piece, empty only at the end. */
  method ReadPiece(p: Process, fd: nat, buf: array<byte>) returns (cnt: nat)
    requires p.Valid() && FIRST_FD <= fd < TABLE_SIZE && buf.Length == CHUNK
    requires p.file[fd].flags == 1 && OpensAs(p.file[fd].op)
    modifies p.file, buf
    ensures p.Valid() && cnt <= CHUNK
    ensures var f, f' := old(p.file[fd]), p.file[fd];
      && f' == f.(pos := f'.pos)
      && (cnt == 0 ==> ToEnd(p.img, f) == [])
      && (cnt != 0 ==> ToEnd(p.img, f) == buf[..cnt] + ToEnd(p.img, f') && Left(p.img, f') < Left(p.img, f))
  {
    hide WellFormed;
    hide ToEnd;
    hide Left;
    hide Delivered;
    hide Advanced;
    ToEndStep(p.img, p.file[fd], CHUNK);
    var r := p.Read(fd, buf, 0, CHUNK, []);
    assert buf[0..0 + r] == buf[..r];
    return r;
  }

  /** The listing `ls` owes from entry `i` on: one name a line, up to the first empty name. */
  ghost function Listing(img: Image, i: nat): seq<byte>
    requires WellFormed(img) && i <= DirCount(img)
    decreases DirCount(img) - i
  {
    if i == DirCount(img) || Names(img)[i] == [] then []
    else Names(img)[i] + [NEWLINE] + Listing(img, i + 1)
  }

  /** The position of the first empty name from `i` on, or the end. */
  function FirstEmpty(names: seq<seq<byte>>, i: nat): (n: nat)
    requires i <= |names|
    ensures i <= n <= |names|
    ensures forall k :: i <= k < n ==> names[k] != []
    ensures n < |names| ==> names[n] == []
    decreases |names| - i
  {
    if i == |names| || names[i] == [] then i else FirstEmpty(names, i + 1)
  }

  lemma FirstEmptyStep(names: seq<seq<byte>>, i: nat)
    requires i < |names| && names[i] != []
    ensures FirstEmpty(names, i) == FirstEmpty(names, i + 1)
    ensures names[i..FirstEmpty(names, i)] == [names[i]] + names[i + 1..FirstEmpty(names, i + 1)]
  {
  }

  lemma Unfolded(img: Image, i: nat)
    requires WellFormed(img) && i <= DirCount(img)
    ensures var names := Names(img);
      if i == |names| || names[i] == [] then Listing(img, i) == RunTogether(img, i) == [] && FirstEmpty(names, i) == i
      else Listing(img, i) == names[i] + [NEWLINE] + Listing(img, i + 1) && RunTogether(img, i) == names[i] + RunTogether(img, i + 1)
  {
    hide WellFormed;
    hide Names;
    hide Word;
  }

  /** Cut at its newlines, the listing is the names in directory order up to the first empty one. */
  lemma {:induction false} ListingLines(img: Image, i: nat)
    requires WellFormed(img) && i <= DirCount(img)
    requires forall k :: i <= k < DirCount(img) ==> NEWLINE !in Names(img)[k]
    ensures Lines(Listing(img, i)) == Names(img)[i..FirstEmpty(Names(img), i)]
    decreases DirCount(img) - i
  {
    hide WellFormed;
    hide Names;
    hide Word;
    hide Listing;
    hide RunTogether;
    hide FirstEmpty;
    hide IndexOf;
    var names := Names(img);
    Unfolded(img, i);
    if i < |names| && names[i] != [] {
      ListingLines(img, i + 1);
      LinesCons(names[i], Listing(img, i + 1));
      FirstEmptyStep(names, i);
    }
  }

  /** What `cat` makes of a directory is its names joined together, up to the first empty one. */
  lemma {:induction false} TogetherIsConcat(img: Image, i: nat)
    requires WellFormed(img) && i <= DirCount(img)
    ensures RunTogether(img, i) == Concat(Names(img)[i..FirstEmpty(Names(img), i)])
    decreases DirCount(img) - i
  {
    hide WellFormed;
    hide Names;
    hide Word;
    hide Listing;
    hide RunTogether;
    hide FirstEmpty;
    var names := Names(img);
    Unfolded(img, i);
    if i < |names| && names[i] != [] {
      TogetherIsConcat(img, i + 1);
      FirstEmptyStep(names, i);
      ConcatCons(names[i], names[i + 1..FirstEmpty(names, i + 1)]);
    }
  }

  /** `ls`'s `main` */
  method Ls(p: Process, behind: Fd) returns (status: int)
    requires p.Valid()
    requires Opened(p.img, DOT_NAME).Some? ==> Opened(p.img, DOT_NAME).value.op.DirOp?
    modifies p.file, p`out
    ensures if OpenSpec(p.img, old(p.file[..]), DOT_NAME, behind).ret < 0
      then status == 2 && p.out == old(p.out) + DIR_FAILED
      else status == 0 && p.out == old(p.out) + Listing(p.img, 0)
  {
    hide WellFormed;
    hide Opened;
    hide Names;
    hide Word;
    var fd, _ := p.Open(DOT_NAME, behind);
    if fd == -1 {
      p.Say(DIR_FAILED);
      return 2;
    }
    OpenedShape(p.img, DOT_NAME);
    ListDirectory(p, fd);
    return 0;
  }

  /** The loop of `ls` over the open directory. */
  method ListDirectory(p: Process, fd: nat)
    requires p.Valid() && FIRST_FD <= fd < TABLE_SIZE
    requires p.file[fd].flags == 1 && p.file[fd].op.DirOp? && p.file[fd].pos == 0
    modifies p.file, p`out
    ensures p.out == old(p.out) + Listing(p.img, 0)
  {
    hide WellFormed;
    hide Names;
    hide Word;
    hide TableOk;
    var buf := new byte[DIR_ROOM];
    ghost var i: nat := 0;
    var cnt := p.ReadEntry(fd, buf);
    while cnt != 0
      invariant p.Valid()
      invariant p.file[fd].flags == 1 && p.file[fd].op.DirOp?
      invariant i <= DirCount(p.img) && (i == DirCount(p.img) ==> cnt == 0)
      invariant i < DirCount(p.img) ==>
        cnt == |Names(p.img)[i]| <= NAME_LEN && p.file[fd].pos == i + 1 && buf[..cnt] == Names(p.img)[i]
      invariant p.out + Listing(p.img, i) == old(p.out) + Listing(p.img, 0)
      decreases DirCount(p.img) - i
    {
      ghost var name, before := Names(p.img)[i], p.out;
      buf[cnt] := NEWLINE;
      var written := p.Write(1, buf[..], cnt + 1);
      assert buf[..][..cnt + 1] == name + [NEWLINE];
      assert before + (name + [NEWLINE]) + Listing(p.img, i + 1) == before + (name + [NEWLINE] + Listing(p.img, i + 1));
      i := i + 1;
      cnt := p.ReadEntry(fd, buf);
    }
  }
}
