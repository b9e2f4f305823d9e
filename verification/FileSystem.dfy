/** The read-only file system image (student-distrib/filesys.c): one boot block with the
    directory, then one block per inode, then the data blocks. The image is modelled as the
    bytes from the boot block on, so an address is an index and every pointer the kernel
    computes is the same sum of products. */
module FileSystem {
  import opened Bytes
  import opened CStrings

  const BLOCK := 4096
  const NAME_LEN := 32
  const MAX_ENTRIES := 63
  const INODE_BLOCKS := 1023
  const ENTRIES_AT := 64
  const ENTRY_SIZE := 64

  type Image = seq<byte>

  /** The little-endian 32-bit word at address `a`. Words outside the image only ever feed
      pointers that are never followed, so their value does not matter. */
  function Word(img: Image, a: nat): nat {
    if a + 4 <= |img|
    then (img[a] as int) + 0x100 * img[a + 1] as int + 0x1_0000 * img[a + 2] as int + 0x100_0000 * img[a + 3] as int
    else 0
  }

  function DirCount(img: Image): nat { Word(img, 0) }

  function InodeCount(img: Image): nat { Word(img, 4) }

  function InodeAddr(inode: nat): nat { BLOCK + inode * BLOCK }

  function DataStart(img: Image): nat { (InodeCount(img) + 1) * BLOCK }

  function Length(img: Image, inode: nat): nat { Word(img, InodeAddr(inode)) }

  /** `curr_inode->data_block[k]` */
  function BlockNumber(img: Image, inode: nat, k: nat): nat { Word(img, InodeAddr(inode) + 4 + 4 * k) }

  /** Where the `k`-th data block of an inode starts. */
  function BlockAddr(img: Image, inode: nat, k: nat): nat { DataStart(img) + BlockNumber(img, inode, k) * BLOCK }

  ghost predicate WellFormedInode(img: Image, inode: nat) {
    && Length(img, inode) <= INODE_BLOCKS * BLOCK
    && forall k: nat :: k * BLOCK < Length(img, inode) ==> BlockAddr(img, inode, k) + BLOCK <= |img|
  }

  ghost predicate WellFormed(img: Image) {
    && BLOCK <= |img| < 0x1_0000_0000
    && DirCount(img) <= MAX_ENTRIES
    && forall inode: nat :: inode < InodeCount(img) ==> WellFormedInode(img, inode)
  }

  // ----- the flat file an inode stands for

  /** The first `n` data blocks of an inode, one after the other. */
  ghost function Blocks(img: Image, inode: nat, n: nat): (s: seq<byte>)
    requires forall k: nat :: k < n ==> BlockAddr(img, inode, k) + BLOCK <= |img|
    ensures |s| == n * BLOCK
  {
    if n == 0 then []
    else Blocks(img, inode, n - 1) + img[BlockAddr(img, inode, n - 1)..BlockAddr(img, inode, n - 1) + BLOCK]
  }

  ghost function BlocksFor(length: nat): nat {
    (length + BLOCK - 1) / BLOCK
  }

  /** The contents of a file: its blocks concatenated and cut at its length. An inode number
      out of range names nothing, and reads as an empty file. */
  ghost function FileBytes(img: Image, inode: nat): (s: seq<byte>)
    requires WellFormed(img)
    ensures |s| == if inode < InodeCount(img) then Length(img, inode) else 0
  {
    if inode < InodeCount(img) then
      assert WellFormedInode(img, inode);
      Blocks(img, inode, BlocksFor(Length(img, inode)))[..Length(img, inode)]
    else []
  }

  lemma {:induction false} BlocksAt(img: Image, inode: nat, n: nat, k: nat, b: nat)
    requires forall k: nat :: k < n ==> BlockAddr(img, inode, k) + BLOCK <= |img|
    requires k < n && b < BLOCK
    ensures k * BLOCK + b < n * BLOCK
    ensures Blocks(img, inode, n)[k * BLOCK + b] == img[BlockAddr(img, inode, k) + b]
  {
    if k < n - 1 {
      BlocksAt(img, inode, n - 1, k, b);
    }
  }

  /** Byte `b` of block `k` is where a file's position `k * BLOCK + b` is stored. */
  lemma FileByteAt(img: Image, inode: nat, k: nat, b: nat)
    requires WellFormed(img) && inode < InodeCount(img)
    requires b < BLOCK && k * BLOCK + b < Length(img, inode)
    ensures BlockAddr(img, inode, k) + b < |img|
    ensures FileBytes(img, inode)[k * BLOCK + b] == img[BlockAddr(img, inode, k) + b]
  {
    assert WellFormedInode(img, inode);
    BlocksAt(img, inode, BlocksFor(Length(img, inode)), k, b);
  }

  // ----- reading

  /** What a read of at most `n` bytes from position `pos` of a file yields. */
  function Slice(file: seq<byte>, pos: nat, n: nat): (s: seq<byte>)
    ensures |s| == Min(n, Max(0, |file| - pos))
  {
    if pos >= |file| then [] else file[pos..Min(pos + n, |file|)]
  }

  /** `read_data`: walk the blocks of the inode byte by byte. `buf` starts at index `at`. */
  method ReadData(img: Image, inode: nat, offset: nat, buf: array<byte>, at: nat, length: nat) returns (n: nat)
    requires WellFormed(img)
    requires at + length <= buf.Length
    modifies buf
    ensures n == |Slice(FileBytes(img, inode), offset, length)|
    ensures buf[..] == Splice(old(buf[..]), at, Slice(FileBytes(img, inode), offset, length))
  {
    hide FileBytes;
    hide Word;
    hide WellFormed;
    ghost var slice := Slice(FileBytes(img, inode), offset, length);
    if inode >= InodeCount(img) {
      return 0;
    }
    var datablock: nat := offset / BLOCK;
    var byteOffset: nat := offset % BLOCK;
    var loc: nat := DataStart(img) + BlockNumber(img, inode, datablock) * BLOCK + byteOffset;
    var i: nat := 0;
    while i < length
      invariant i <= |slice| && i <= length
      invariant byteOffset <= BLOCK
      invariant datablock * BLOCK + byteOffset == offset + i
      invariant loc == BlockAddr(img, inode, datablock) + byteOffset
      invariant forall k :: 0 <= k < buf.Length && !(at <= k < at + i) ==> buf[k] == old(buf[k])
      invariant forall k :: at <= k < at + i ==> buf[k] == slice[k - at]
    {
      if i + offset >= Length(img, inode) {
        return i;
      }
      if byteOffset >= BLOCK {
        datablock := datablock + 1;
        byteOffset := 0;
        loc := DataStart(img) + BlockNumber(img, inode, datablock) * BLOCK;
      }
      SliceByte(img, inode, offset, length, i, datablock, byteOffset);
      buf[at + i] := img[loc];
      loc := loc + 1;
      byteOffset := byteOffset + 1;
      i := i + 1;
    }
    return i;
  }

  /** The walker's position is the right one: block `k`, offset `b` holds the slice's next byte. */
  lemma SliceByte(img: Image, inode: nat, offset: nat, length: nat, i: nat, k: nat, b: nat)
    requires WellFormed(img) && inode < InodeCount(img)
    requires i < length && offset + i < Length(img, inode)
    requires b < BLOCK && k * BLOCK + b == offset + i
    ensures BlockAddr(img, inode, k) + b < |img|
    ensures i < |Slice(FileBytes(img, inode), offset, length)|
    ensures Slice(FileBytes(img, inode), offset, length)[i] == img[BlockAddr(img, inode, k) + b]
  {
    FileByteAt(img, inode, k, b);
    SliceAt(FileBytes(img, inode), offset, length, i);
  }

  lemma SliceAt(file: seq<byte>, pos: nat, n: nat, i: nat)
    requires i < n && pos + i < |file|
    ensures i < |Slice(file, pos, n)| && Slice(file, pos, n)[i] == file[pos + i]
  {
  }

  /** Reading `a` bytes and then `b` bytes is reading `a + b` bytes. */
  lemma SliceSlice(file: seq<byte>, pos: nat, a: nat, b: nat)
    ensures Slice(file, pos, a) + Slice(file, pos + |Slice(file, pos, a)|, b) == Slice(file, pos, a + b)
  {
  }

  // ----- the directory

  /** A directory entry as `read_dentry_by_index` copies it out. */
  datatype Dentry = Dentry(fileName: seq<byte>, fileType: nat, inode: nat)

  datatype Option<+T> = None | Some(value: T)

  function EntryAddr(i: nat): nat { ENTRIES_AT + i * ENTRY_SIZE }

  /** The name of entry `i`: its field cut at the first NUL, if it has one. */
  function EntryName(img: Image, i: nat): seq<byte>
    requires WellFormed(img) && i < DirCount(img)
  {
    Clip(img[EntryAddr(i)..], NAME_LEN)
  }

  function EntryType(img: Image, i: nat): nat { Word(img, EntryAddr(i) + NAME_LEN) }

  function EntryInode(img: Image, i: nat): nat { Word(img, EntryAddr(i) + NAME_LEN + 4) }

  function EntryAt(img: Image, i: nat): Dentry
    requires WellFormed(img) && i < DirCount(img)
  {
    Dentry(StrncpyField(img[EntryAddr(i)..], NAME_LEN), EntryType(img, i), EntryInode(img, i))
  }

  /** The names in directory order. */
  function Names(img: Image): (names: seq<seq<byte>>)
    requires WellFormed(img)
    ensures |names| == DirCount(img)
  {
    seq(DirCount(img), i requires 0 <= i < DirCount(img) => EntryName(img, i))
  }

  /** The first position from `i` on that holds `name`, or `|names|`. */
  function First(names: seq<seq<byte>>, name: seq<byte>, i: nat): (k: nat)
    requires i <= |names|
    ensures i <= k <= |names|
    ensures forall j :: i <= j < k ==> names[j] != name
    ensures k < |names| ==> names[k] == name
    decreases |names| - i
  {
    if i == |names| || names[i] == name then i else First(names, name, i + 1)
  }

  function Lookup(img: Image, name: seq<byte>): Option<Dentry>
    requires WellFormed(img)
  {
    var k := First(Names(img), name, 0);
    if k < DirCount(img) then Some(EntryAt(img, k)) else None
  }

  method ReadDentryByIndex(img: Image, index: nat) returns (r: Option<Dentry>)
    requires WellFormed(img)
    ensures r == if index < DirCount(img) then Some(EntryAt(img, index)) else None
  {
    if index >= DirCount(img) {
      return None;
    }
    var a := EntryAddr(index);
    var field := new byte[NAME_LEN];
    Strncpy(field, 0, img[a..], NAME_LEN);
    assert field[..] == StrncpyField(img[a..], NAME_LEN);
    return Some(Dentry(field[..], Word(img, a + NAME_LEN), Word(img, a + NAME_LEN + 4)));
  }

  /** `fname` is the memory at the caller's pointer; the search compares at most 32 bytes. */
  method ReadDentryByName(img: Image, fname: seq<byte>) returns (r: Option<Dentry>)
    requires WellFormed(img)
    requires Readable(fname, NAME_LEN)
    ensures r == Lookup(img, Clip(fname, NAME_LEN))
  {
    hide Word;
    hide Clip;
    ghost var names, name := Names(img), Clip(fname, NAME_LEN);
    var i := 0;
    while i < DirCount(img)
      invariant i <= DirCount(img)
      invariant First(names, name, 0) == First(names, name, i)
    {
      var match_ := Strncmp(img[EntryAddr(i)..], fname, NAME_LEN);
      if match_ == 0 {
        assert names[i] == name;
        r := ReadDentryByIndex(img, i);
        return;
      }
      i := i + 1;
    }
    return None;
  }
}
