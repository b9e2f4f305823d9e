/** The front half of `execute` (student-distrib/syscall.c): parse the command, look the program
    word up, read the file, check its magic number and copy it to the program address. What it
    decides is the request the process table acts on. */
module Loader {
  import opened Bytes
  import opened CStrings
  import opened FileSystem
  import opened Commands
  import opened Memory
  import opened Processes

  const ELF: seq<byte> := [0x7F, 0x45, 0x4C, 0x46]
  const SHELL: seq<byte> := [115, 104, 101, 108, 108]

  /** The bytes read from the file: the read asks for as many bytes as the inodes take up. */
  ghost function ReadPart(img: Image, inode: nat): seq<byte>
    requires WellFormed(img)
  {
    Slice(FileBytes(img, inode), 0, Capacity(img))
  }

  /** As many bytes as a 16-bit count of them says. */
  function Cut16(s: seq<byte>): seq<byte> {
    s[..|s| % 0x1_0000]
  }

  /** The bytes copied: their number passes through a 16-bit variable. */
  ghost function Loaded(img: Image, inode: nat): seq<byte>
    requires WellFormed(img)
  {
    Cut16(ReadPart(img, inode))
  }

  /** What the file buffer holds after the read: the bytes read, and behind them whatever stood on
      the stack before. */
  function Overlaid(part: seq<byte>, stack: seq<byte>): seq<byte> {
    part + if |part| < |stack| then stack[|part|..] else []
  }

  /** The code compares four bytes of that with the magic number, however few were read. */
  predicate HasMagic(part: seq<byte>, stack: seq<byte>) {
    ELF <= Overlaid(part, stack)
  }

  lemma LongFileMagic(part: seq<byte>, stack: seq<byte>)
    requires |part| >= 4
    ensures HasMagic(part, stack) <==> ELF <= part
  {
    assert Overlaid(part, stack)[..4] == part[..4];
  }

  /** What becomes of a command; `stack` is the memory from the file buffer on. */
  ghost function RequestFor(img: Image, command: seq<byte>, stack: seq<byte>): Request
    requires WellFormed(img)
  {
    if command == [] then Empty
    else if |FirstWord(command)| > NAME_MAX then TooLong
    else match Lookup(img, FirstWord(command))
      case None => NotFound
      case Some(d) =>
        if HasMagic(ReadPart(img, d.inode), stack) then Loads(FirstWord(command) == SHELL) else NotExecutable
  }

  /** A file is loaded whole if and only if it is shorter than 64KB and no longer than the read
      that the inode count allows. */
  lemma WholeFileLoaded(img: Image, inode: nat)
    requires WellFormed(img)
    ensures var file := FileBytes(img, inode);
      Loaded(img, inode) == file <==> |file| <= 0xFFFF && |file| <= InodeCount(img) * 4096
  {
    hide FileBytes;
    hide WellFormed;
    var file, cap := FileBytes(img, inode), Capacity(img);
    if |file| <= 0xFFFF && |file| <= cap {
      assert ReadPart(img, inode) == file;
    } else {
      assert |Loaded(img, inode)| < |file|;
    }
  }

  /** The command `shell` that `halt` and a first switch issue starts a shell if and only if there
      is a file of that name whose first four bytes, or what stands in for them, are the magic. */
  lemma ShellLoads(img: Image, stack: seq<byte>)
    requires WellFormed(img)
    ensures RequestFor(img, SHELL, stack) == Loads(true)
       <==> Lookup(img, SHELL).Some? && HasMagic(ReadPart(img, Lookup(img, SHELL).value.inode), stack)
  {
    hide WellFormed;
    hide Lookup;
    hide ReadPart;
    hide HasMagic;
    IndexOfIs(SHELL, SPACE, 5);
    assert SHELL[0..] == SHELL && SHELL[..5] == SHELL;
    assert LeadingSpaces(SHELL) == 0;
  }

  /** A program is taken for the shell if and only if its word is "shell", whatever follows it. */
  lemma TakenForShell(img: Image, command: seq<byte>, stack: seq<byte>)
    requires WellFormed(img) && RequestFor(img, command, stack).Loads?
    ensures RequestFor(img, command, stack).isShell <==> FirstWord(command) == [115, 104, 101, 108, 108]
    ensures command != [] && |FirstWord(command)| <= 32
    ensures exists i :: 0 <= i < DirCount(img) && EntryName(img, i) == FirstWord(command) && HasMagic(ReadPart(img, EntryInode(img, i)), stack)
  {
    hide WellFormed;
    hide FirstWord;
    hide HasMagic;
    hide ReadPart;
    hide Word;
    hide EntryName;
    var k := First(Names(img), FirstWord(command), 0);
    assert EntryName(img, k) == Names(img)[k];
  }

  /** How many bytes the read may deliver. */
  function Capacity(img: Image): nat { InodeCount(img) * BLOCK }

  /** The program image of `inode` stands at `dest`. */
  ghost predicate ImageAt(mem: seq<byte>, dest: nat, img: Image, inode: nat)
    requires WellFormed(img)
  {
    Loaded(img, inode) <= mem[Min(dest, |mem|)..]
  }

  lemma ImageStands(mem: seq<byte>, dest: nat, img: Image, inode: nat)
    requires WellFormed(img) && dest <= |mem| && ImageAt(mem, dest, img, inode)
    ensures var program := Loaded(img, inode);
      dest + |program| <= |mem| && mem[dest..dest + |program|] == program
  {
    hide Loaded;
    hide WellFormed;
    var program := Loaded(img, inode);
    assert mem[dest..][..|program|] == mem[dest..dest + |program|];
  }

  lemma NamesRead()
    ensures ELF == [0x7F] + Ascii("ELF") && SHELL == Ascii("shell")
  {
  }

  /** Read the file, check the magic number, copy the image. `mem` holds the program page at
      `dest` and, below it, the file buffer on the kernel stack at `src`. */
  method LoadImage(img: Image, inode: nat, mem: array<byte>, dest: nat, src: nat) returns (ok: bool)
    requires WellFormed(img)
    requires src + Capacity(img) <= dest && dest + 0x1_0000 <= mem.Length
    modifies mem
    ensures ok <==> HasMagic(ReadPart(img, inode), old(mem[src..]))
    ensures ok ==> ImageAt(mem[..], dest, img, inode)
    ensures forall k :: 0 <= k < src || dest + 0x1_0000 <= k < mem.Length || (dest <= k < mem.Length && !ok) ==> mem[k] == old(mem[k])
  {
    hide WellFormed;
    hide Word;
    hide ReadPart;
    hide Stands;
    hide ImageAt;
    hide Clip;
    hide HasMagic;
    ghost var before, part := mem[..], ReadPart(img, inode);
    assert before[src..] == mem[src..];
    var n := ReadImage(img, inode, mem, src);
    assert mem[..][src..] == mem[src..];
    ReadOverlays(before, mem[..], src, part);
    MagicMatches(mem[src..], part, before[src..]);
    var magic := Strncmp(mem[src..], ELF + [NUL], 4);
    if magic != 0 {
      return false;
    }
    ghost var filled := mem[..];
    Memcpy(mem, dest, src, n % 0x1_0000);
    assert mem[..][dest..dest + n % 0x1_0000] == filled[src..src + n % 0x1_0000];
    ImageCopied(filled, mem[..], dest, src, img, inode);
    return true;
  }

  lemma ReadOverlays(before: seq<byte>, after: seq<byte>, src: nat, part: seq<byte>)
    requires |before| == |after| && Stands(after, src, part)
    requires forall k :: 0 <= k < |after| && !(src <= k < src + |part|) ==> after[k] == before[k]
    ensures src <= |after| && after[src..] == Overlaid(part, before[src..])
  {
    var n := |part|;
    assert after[src..] == after[src..src + n] + after[src + n..];
    assert after[src + n..] == before[src + n..] == before[src..][n..];
  }

  method ReadImage(img: Image, inode: nat, mem: array<byte>, src: nat) returns (n: nat)
    requires WellFormed(img) && src + Capacity(img) <= mem.Length
    modifies mem
    ensures n == |ReadPart(img, inode)| <= Capacity(img)
    ensures Stands(mem[..], src, ReadPart(img, inode))
    ensures forall k :: 0 <= k < mem.Length && !(src <= k < src + n) ==> mem[k] == old(mem[k])
  {
    hide WellFormed;
    hide FileBytes;
    hide Word;
    n := ReadData(img, inode, 0, mem, src, Capacity(img));
    BufferHolds(old(mem[..]), mem[..], src, ReadPart(img, inode));
  }

  lemma ImageCopied(filled: seq<byte>, after: seq<byte>, dest: nat, src: nat, img: Image, inode: nat)
    requires WellFormed(img) && |filled| == |after|
    requires var part := ReadPart(img, inode); var n := |part| % 0x1_0000;
      && Stands(filled, src, part)
      && dest + n <= |after| && after[dest..dest + n] == filled[src..src + n]
    ensures ImageAt(after, dest, img, inode)
  {
    hide ReadPart;
    var part := ReadPart(img, inode);
    var n := |part| % 0x1_0000;
    assert filled[src..src + n] == filled[src..src + |part|][..n] == part[..n];
    assert after[dest..][..n] == after[dest..dest + n];
  }

  method Prepare(img: Image, command: seq<byte>, mem: array<byte>, dest: nat, src: nat) returns (req: Request, arg: seq<byte>)
    requires WellFormed(img) && NulFree(command) && ArgFits(command)
    requires src + Capacity(img) <= dest && dest + 0x1_0000 <= mem.Length
    modifies mem
    ensures req == RequestFor(img, command, old(mem[src..]))
    ensures req.Loads? ==> arg == RestArg(command)
    ensures req.Loads? ==> var d := Lookup(img, FirstWord(command)); d.Some? && ImageAt(mem[..], dest, img, d.value.inode)
    ensures forall k :: 0 <= k < src || dest + 0x1_0000 <= k < mem.Length || (dest <= k < mem.Length && !req.Loads?) ==> mem[k] == old(mem[k])
  {
    hide WellFormed;
    hide Word;
    hide FirstWord;
    hide RestArg;
    hide Lookup;
    hide ImageAt;
    hide ReadPart;
    arg := [];
    if command == [] {
      return Empty, arg;
    }
    var parsed := Parse(command);
    if parsed.FileNameTooLong? {
      return TooLong, arg;
    }
    var word := parsed.word;
    ParsedWordNulFree(command);
    ClipTerminated(word, NAME_LEN);
    assert word[..|word|] == word;
    var found := ReadDentryByName(img, word + [NUL]);
    if found.None? {
      return NotFound, arg;
    }
    var ok := LoadImage(img, found.value.inode, mem, dest, src);
    if !ok {
      return NotExecutable, arg;
    }
    return Loads(word == SHELL), parsed.arg;
  }

  ghost predicate Stands(mem: seq<byte>, src: nat, part: seq<byte>) {
    src + |part| <= |mem| && mem[src..src + |part|] == part
  }

  lemma BufferHolds(before: seq<byte>, after: seq<byte>, src: nat, part: seq<byte>)
    requires src + |part| <= |before| && after == Splice(before, src, part)
    ensures |after| == |before| && Stands(after, src, part)
    ensures forall k :: 0 <= k < |after| && !(src <= k < src + |part|) ==> after[k] == before[k]
  {
  }

  lemma MagicMatches(buf: seq<byte>, part: seq<byte>, stack: seq<byte>)
    requires buf == Overlaid(part, stack) && |buf| >= 4
    ensures Clip(buf, 4) == Clip(ELF + [NUL], 4) <==> HasMagic(part, stack)
    ensures CStrings.Readable(buf, 4) && CStrings.Readable(ELF + [NUL], 4)
  {
    IndexOfIs((ELF + [NUL])[..4], NUL, 4);
    IndexOfIs(ELF + [NUL], NUL, 4);
    assert Clip(ELF + [NUL], 4) == ELF;
    if Clip(buf, 4) == ELF {
      assert buf[..4] == ELF;
    }
    if ELF <= buf {
      assert buf[..4] == ELF;
      IndexOfIs(buf[..4], NUL, 4);
    }
  }

  lemma ParsedWordNulFree(command: seq<byte>)
    requires NulFree(command)
    ensures NulFree(FirstWord(command))
  {
  }
}
