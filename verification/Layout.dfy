/** Writing a file system image, so that there is something for the reader to get back: `Layout`
    puts given files into the format of student-distrib/filesys.h, block by block, and `RoundTrip`
    says that the kernel's reader finds exactly these files in it. */
module Layout {
  import opened Bytes
  import opened CStrings
  import opened FileSystem
  import opened Descriptors
  import opened Cursors

  datatype File = File(name: seq<byte>, kind: nat, data: seq<byte>)

  // ----- words, padding and chunks

  /** Four bytes, the lowest first. */
  function LE32(n: nat): (s: seq<byte>)
    ensures |s| == 4
  {
    [n % 256, n / 256 % 256, n / 65536 % 256, n / 16777216 % 256]
  }

  function Zeros(n: nat): (s: seq<byte>)
    ensures |s| == n && forall i :: 0 <= i < n ==> s[i] == 0
  {
    seq(n, _ => 0)
  }

  function Pad(s: seq<byte>, n: nat): (r: seq<byte>)
    ensures |s| <= n ==> |r| == n && r[..|s|] == s && forall i :: |s| <= i < n ==> r[i] == 0
  {
    if |s| <= n then s + Zeros(n - |s|) else s
  }

  ghost predicate Sized(chunks: seq<seq<byte>>, c: nat) {
    forall j :: 0 <= j < |chunks| ==> |chunks[j]| == c
  }

  /** The chunks of a concatenation stand one behind the other. */
  lemma {:induction false} ChunkAt(chunks: seq<seq<byte>>, c: nat, j: nat)
    requires Sized(chunks, c) && j < |chunks|
    ensures 0 <= j * c <= j * c + c <= |Concat(chunks)|
    ensures Concat(chunks)[j * c..j * c + c] == chunks[j]
  {
    var rest := chunks[1..];
    assert |chunks[0]| == c;
    if j > 0 {
      assert Sized(rest, c);
      ChunkAt(rest, c, j - 1);
      assert (j - 1) * c == j * c - c;
      assert Concat(chunks) == chunks[0] + Concat(rest);
      assert Concat(chunks)[j * c..j * c + c] == Concat(rest)[(j - 1) * c..(j - 1) * c + c];
    } else {
      assert Concat(chunks)[..c] == chunks[0];
    }
  }

  lemma {:induction false} ChunksSize(chunks: seq<seq<byte>>, c: nat)
    requires Sized(chunks, c)
    ensures |Concat(chunks)| == |chunks| * c
  {
    if chunks != [] {
      ChunksSize(chunks[1..], c);
      assert (|chunks| - 1) * c == |chunks| * c - c;
    }
  }

  /** Reading a word back. */
  lemma WordOf(img: seq<byte>, a: nat, n: nat)
    requires a + 4 <= |img| && img[a..a + 4] == LE32(n) && n < 0x1_0000_0000
    ensures Word(img, a) == n
  {
    var w := img[a..a + 4];
    assert img[a] == w[0] && img[a + 1] == w[1] && img[a + 2] == w[2] && img[a + 3] == w[3];
    Digits256(n);
  }

  lemma Digits256(n: nat)
    requires n < 0x1_0000_0000
    ensures n == n % 256 + 256 * (n / 256 % 256) + 65536 * (n / 65536 % 256) + 16777216 * (n / 16777216 % 256)
  {
    assert n / 65536 == n / 256 / 256 && n / 16777216 == n / 65536 / 256;
  }

  // ----- the three kinds of blocks

  /** A file's data, cut into blocks, the last one padded. */
  function Chunks(data: seq<byte>): seq<seq<byte>>
    decreases |data|
  {
    if data == [] then []
    else if |data| <= 4096 then [Pad(data, 4096)]
    else [data[..4096]] + Chunks(data[4096..])
  }

  lemma {:induction false} ChunksOf(data: seq<byte>)
    ensures Sized(Chunks(data), 4096)
    ensures |Chunks(data)| == (|data| + 4095) / 4096
    ensures forall k, b {:trigger Chunks(data)[k][b]} :: 0 <= k && 0 <= b < 4096 && 4096 * k + b < |data| ==>
      k < |Chunks(data)| && |Chunks(data)[k]| == 4096 && Chunks(data)[k][b] == data[4096 * k + b]
    decreases |data|
  {
    if |data| > 4096 {
      var rest := data[4096..];
      ChunksOf(rest);
      assert Chunks(data) == [data[..4096]] + Chunks(rest);
      hide Chunks;
      forall k, b | 0 <= k && 0 <= b < 4096 && 4096 * k + b < |data|
        ensures k < |Chunks(data)| && |Chunks(data)[k]| == 4096 && Chunks(data)[k][b] == data[4096 * k + b]
      {
        if k > 0 {
          assert Chunks(data)[k] == Chunks(rest)[k - 1];
          assert Chunks(rest)[k - 1][b] == rest[4096 * (k - 1) + b];
        }
      }
    } else if data != [] {
      forall k, b | 0 <= k && 0 <= b < 4096 && 4096 * k + b < |data|
        ensures k < |Chunks(data)| && |Chunks(data)[k]| == 4096 && Chunks(data)[k][b] == data[4096 * k + b]
      {
        assert k == 0;
        assert Pad(data, 4096)[..|data|][b] == data[b];
      }
    }
  }

  /** The data blocks of all files, file after file. */
  function AllChunks(files: seq<File>): seq<seq<byte>> {
    if files == [] then [] else AllChunks(files[..|files| - 1]) + Chunks(files[|files| - 1].data)
  }

  /** The number of the first data block of file `i`. */
  function Start(files: seq<File>, i: nat): nat
    requires i <= |files|
  {
    |AllChunks(files[..i])|
  }

  function Numbers(start: nat, n: nat): (s: seq<seq<byte>>)
    ensures |s| == n && forall k :: 0 <= k < n ==> s[k] == LE32(start + k)
  {
    seq(n, k requires 0 <= k < n => LE32(start + k))
  }

  function Inode(files: seq<File>, i: nat): seq<byte>
    requires i < |files|
  {
    Pad(Concat([LE32(|files[i].data|)] + Numbers(Start(files, i), |Chunks(files[i].data)|)), 4096)
  }

  function Inodes(files: seq<File>): (s: seq<seq<byte>>)
    ensures |s| == |files|
  {
    seq(|files|, i requires 0 <= i < |files| => Inode(files, i))
  }

  function Entry(f: File, i: nat): seq<byte> {
    Pad(f.name, 32) + LE32(f.kind) + LE32(i) + Zeros(24)
  }

  function Entries(files: seq<File>): (s: seq<seq<byte>>)
    ensures |s| == |files|
  {
    seq(|files|, i requires 0 <= i < |files| => Entry(files[i], i))
  }

  function Header(files: seq<File>): seq<byte> {
    LE32(|files|) + LE32(|files|) + LE32(|AllChunks(files)|) + Zeros(52)
  }

  function Boot(files: seq<File>): seq<byte> {
    Pad(Concat([Header(files)] + Entries(files)), 4096)
  }

  function AllBlocks(files: seq<File>): seq<seq<byte>> {
    [Boot(files)] + Inodes(files) + AllChunks(files)
  }

  function Layout(files: seq<File>): Image {
    Concat(AllBlocks(files))
  }

  /** At most 63 files, with names and lengths the format has room for. */
  ghost predicate Fits(files: seq<File>) {
    && |files| <= 63
    && (forall i :: 0 <= i < |files| ==> FileFits(files[i]))
    && (1 + |files| + |AllChunks(files)|) * 4096 < 0x1_0000_0000
  }

  ghost predicate FileFits(f: File) {
    NulFree(f.name) && |f.name| <= 32 && f.kind < 0x1_0000_0000 && |f.data| <= 1023 * 4096
  }

  // ----- where everything stands

  lemma {:induction false} AllChunksSized(files: seq<File>)
    ensures Sized(AllChunks(files), 4096)
  {
    hide Chunks;
    if files != [] {
      var front, data := files[..|files| - 1], files[|files| - 1].data;
      AllChunksSized(front);
      ChunksOf(data);
      SizedConcat(AllChunks(front), Chunks(data), 4096);
    }
  }

  lemma SizedConcat(a: seq<seq<byte>>, b: seq<seq<byte>>, c: nat)
    requires Sized(a, c) && Sized(b, c)
    ensures Sized(a + b, c)
  {
  }

  lemma {:induction false} ChunkOfFile(files: seq<File>, i: nat, k: nat)
    requires i < |files| && k < |Chunks(files[i].data)|
    ensures Start(files, i) + k < |AllChunks(files)|
    ensures AllChunks(files)[Start(files, i) + k] == Chunks(files[i].data)[k]
    decreases |files|
  {
    hide Chunks;
    var front := files[..|files| - 1];
    assert AllChunks(files) == AllChunks(front) + Chunks(files[|files| - 1].data);
    if i < |files| - 1 {
      ChunkOfFile(front, i, k);
      assert front[..i] == files[..i];
      hide AllChunks;
    }
  }

  lemma BootBytes(files: seq<File>)
    requires |files| <= 63 && forall i :: 0 <= i < |files| ==> FileFits(files[i])
    ensures |Boot(files)| == 4096 && Boot(files)[..64] == Header(files)
    ensures forall i :: 0 <= i < |files| ==> Boot(files)[64 + 64 * i..128 + 64 * i] == Entry(files[i], i)
  {
    var chunks := [Header(files)] + Entries(files);
    forall j | 0 <= j < |chunks| ensures |chunks[j]| == 64 {
      if j > 0 { assert FileFits(files[j - 1]); }
    }
    ChunksSize(chunks, 64);
    var all := Concat(chunks);
    var boot := Boot(files);
    assert boot[..|all|] == all;
    ChunkAt(chunks, 64, 0);
    assert boot[..64] == all[0..64];
    forall i | 0 <= i < |files| ensures boot[64 + 64 * i..128 + 64 * i] == Entry(files[i], i) {
      ChunkAt(chunks, 64, i + 1);
      assert boot[64 + 64 * i..128 + 64 * i] == all[(i + 1) * 64..(i + 1) * 64 + 64];
    }
  }

  lemma InodeBytes(files: seq<File>, i: nat)
    requires i < |files| && FileFits(files[i])
    ensures |Inode(files, i)| == 4096 && Inode(files, i)[..4] == LE32(|files[i].data|)
    ensures |Chunks(files[i].data)| <= 1023
    ensures forall k :: 0 <= k < |Chunks(files[i].data)| ==> Inode(files, i)[4 + 4 * k..8 + 4 * k] == LE32(Start(files, i) + k)
  {
    hide Chunks;
    ChunksOf(files[i].data);
    var n := |Chunks(files[i].data)|;
    var chunks := [LE32(|files[i].data|)] + Numbers(Start(files, i), n);
    assert Sized(chunks, 4);
    ChunksSize(chunks, 4);
    var all, inode := Concat(chunks), Inode(files, i);
    assert n <= 1023;
    assert inode[..|all|] == all;
    ChunkAt(chunks, 4, 0);
    assert inode[..4] == all[0..4];
    forall k | 0 <= k < n ensures inode[4 + 4 * k..8 + 4 * k] == LE32(Start(files, i) + k) {
      ChunkAt(chunks, 4, k + 1);
      assert inode[4 + 4 * k..8 + 4 * k] == all[(k + 1) * 4..(k + 1) * 4 + 4];
    }
  }

  lemma BlocksSized(files: seq<File>)
    requires Fits(files)
    ensures Sized(AllBlocks(files), 4096)
    ensures |Layout(files)| == (1 + |files| + |AllChunks(files)|) * 4096
  {
    hide AllChunks;
    BootBytes(files);
    forall i | 0 <= i < |files| ensures |Inodes(files)[i]| == 4096 {
      InodeBytes(files, i);
    }
    AllChunksSized(files);
    SizedConcat([Boot(files)], Inodes(files), 4096);
    SizedConcat([Boot(files)] + Inodes(files), AllChunks(files), 4096);
    ChunksSize(AllBlocks(files), 4096);
  }

  /** Block `j` of the image, and any four bytes in it. */
  lemma BlockAt(files: seq<File>, j: nat)
    requires Fits(files) && j < |AllBlocks(files)|
    ensures j * 4096 + 4096 <= |Layout(files)| && |AllBlocks(files)[j]| == 4096
    ensures Layout(files)[j * 4096..j * 4096 + 4096] == AllBlocks(files)[j]
  {
    hide AllBlocks;
    BlocksSized(files);
    ChunkAt(AllBlocks(files), 4096, j);
  }

  lemma SubSlice(img: seq<byte>, at: nat, block: seq<byte>, a: nat, b: nat)
    requires a <= b <= |block| && at + |block| <= |img| && img[at..at + |block|] == block
    ensures img[at + a..at + b] == block[a..b]
  {
    forall d | 0 <= d < b - a ensures img[at + a..at + b][d] == block[a..b][d] {
      assert img[at..at + |block|][a + d] == img[at + a + d];
    }
  }

  lemma HeaderWords(files: seq<File>)
    requires Fits(files)
    ensures DirCount(Layout(files)) == |files| && InodeCount(Layout(files)) == |files|
  {
    hide AllChunks;
    hide Layout;
    hide Word;
    var img := Layout(files);
    BlockAt(files, 0);
    BootBytes(files);
    SubSlice(img, 0, Boot(files), 0, 64);
    var header := Header(files);
    assert Boot(files)[0..64] == header;
    assert header[0..4] == LE32(|files|) && header[4..8] == LE32(|files|);
    SubSlice(img, 0, header, 0, 4);
    SubSlice(img, 0, header, 4, 8);
    WordOf(img, 0, |files|);
    WordOf(img, 4, |files|);
  }

  lemma EntryWords(files: seq<File>, i: nat)
    requires Fits(files) && i < |files|
    ensures var img, at := Layout(files), 64 + 64 * i;
      && at + 64 <= |img| && img[at..at + 32] == Pad(files[i].name, 32)
      && EntryType(img, i) == files[i].kind && EntryInode(img, i) == i
  {
    hide AllChunks;
    hide Layout;
    hide Word;
    var img, at := Layout(files), 64 + 64 * i;
    assert FileFits(files[i]);
    BlockAt(files, 0);
    BootBytes(files);
    var e := Entry(files[i], i);
    SubSlice(img, 0, Boot(files), at, at + 64);
    assert img[at..at + 64] == e;
    assert e[0..32] == Pad(files[i].name, 32) && e[32..36] == LE32(files[i].kind) && e[36..40] == LE32(i);
    SubSlice(img, at, e, 0, 32);
    SubSlice(img, at, e, 32, 36);
    SubSlice(img, at, e, 36, 40);
    WordOf(img, at + 32, files[i].kind);
    WordOf(img, at + 36, i);
  }

  lemma InodeWords(files: seq<File>, i: nat)
    requires Fits(files) && i < |files|
    ensures Length(Layout(files), i) == |files[i].data|
    ensures forall k: nat :: k < |Chunks(files[i].data)| ==> BlockNumber(Layout(files), i, k) == Start(files, i) + k
  {
    hide AllChunks;
    hide Chunks;
    hide Layout;
    hide Word;
    var img := Layout(files);
    assert FileFits(files[i]);
    BlockAt(files, i + 1);
    InodeBytes(files, i);
    var inode, at := Inode(files, i), (i + 1) * 4096;
    assert AllBlocks(files)[i + 1] == inode;
    SubSlice(img, at, inode, 0, 4);
    WordOf(img, at, |files[i].data|);
    forall k: nat | k < |Chunks(files[i].data)| ensures BlockNumber(img, i, k) == Start(files, i) + k {
      NumberWord(files, i, k);
    }
  }

  lemma NumberWord(files: seq<File>, i: nat, k: nat)
    requires Fits(files) && i < |files| && k < |Chunks(files[i].data)|
    ensures BlockNumber(Layout(files), i, k) == Start(files, i) + k
  {
    hide AllChunks;
    hide Chunks;
    hide Layout;
    hide Word;
    var img := Layout(files);
    assert FileFits(files[i]);
    BlockAt(files, i + 1);
    InodeBytes(files, i);
    ChunksOf(files[i].data);
    ChunkOfFile(files, i, k);
    var inode, at := Inode(files, i), (i + 1) * 4096;
    assert AllBlocks(files)[i + 1] == inode;
    SubSlice(img, at, inode, 4 + 4 * k, 8 + 4 * k);
    WordOf(img, at + 4 + 4 * k, Start(files, i) + k);
  }

  /** The data block that holds block `k` of file `i`. */
  lemma DataBlock(files: seq<File>, i: nat, k: nat)
    requires Fits(files) && i < |files| && k < |Chunks(files[i].data)|
    ensures var at := BlockAddr(Layout(files), i, k);
      && at + 4096 <= |Layout(files)|
      && |Chunks(files[i].data)[k]| == 4096
      && Layout(files)[at..at + 4096] == Chunks(files[i].data)[k]
  {
    hide AllChunks;
    hide Chunks;
    hide Layout;
    hide Word;
    HeaderWords(files);
    InodeWords(files, i);
    ChunkOfFile(files, i, k);
    ChunksOf(files[i].data);
    var j := 1 + |files| + (Start(files, i) + k);
    BlockAt(files, j);
    assert AllBlocks(files)[j] == AllChunks(files)[Start(files, i) + k];
  }

  lemma LayoutIsWellFormed(files: seq<File>)
    requires Fits(files)
    ensures WellFormed(Layout(files))
  {
    hide AllChunks;
    hide Chunks;
    hide Layout;
    hide Word;
    hide Length;
    hide BlockAddr;
    var img := Layout(files);
    BlocksSized(files);
    HeaderWords(files);
    forall i: nat | i < InodeCount(img) ensures WellFormedInode(img, i) {
      assert FileFits(files[i]);
      InodeWords(files, i);
      ChunksOf(files[i].data);
      forall k: nat | k * 4096 < Length(img, i) ensures BlockAddr(img, i, k) + 4096 <= |img| {
        DataBlock(files, i, k);
      }
    }
  }

  /** Laying files out and reading them back gives the files: the directory has their names, types
      and inodes in order, and every file its bytes. */
  lemma RoundTrip(files: seq<File>, i: nat)
    requires Fits(files) && i < |files|
    ensures var img := Layout(files);
      && WellFormed(img) && DirCount(img) == |files|
      && Names(img)[i] == files[i].name && EntryType(img, i) == files[i].kind && EntryInode(img, i) == i
      && FileBytes(img, i) == files[i].data
  {
    LayoutIsWellFormed(files);
    HeaderWords(files);
    NameBack(files, i);
    DataBack(files, i);
    hide *;
    EntryWords(files, i);
  }

  lemma NameBack(files: seq<File>, i: nat)
    requires Fits(files) && i < |files| && WellFormed(Layout(files)) && DirCount(Layout(files)) == |files|
    ensures Names(Layout(files))[i] == files[i].name
  {
    hide AllChunks;
    hide Layout;
    hide Word;
    hide WellFormed;
    var img, name := Layout(files), files[i].name;
    assert FileFits(files[i]);
    EntryWords(files, i);
    var field := img[EntryAddr(i)..][..32];
    assert field == img[64 + 64 * i..64 + 64 * i + 32] == Pad(name, 32);
    assert field[..|name|] == name;
    assert forall k :: 0 <= k < |name| ==> field[k] == name[k] && name[k] in name;
    IndexOfIs(field, NUL, |name|);
  }

  lemma DataBack(files: seq<File>, i: nat)
    requires Fits(files) && i < |files| && WellFormed(Layout(files)) && DirCount(Layout(files)) == |files|
    ensures FileBytes(Layout(files), i) == files[i].data
  {
    hide AllChunks;
    hide Chunks;
    hide Layout;
    hide Word;
    hide WellFormed;
    hide FileBytes;
    var img, data := Layout(files), files[i].data;
    HeaderWords(files);
    InodeWords(files, i);
    forall p | 0 <= p < |data| ensures FileBytes(img, i)[p] == data[p] {
      ByteBack(files, i, p);
    }
  }

  lemma ByteBack(files: seq<File>, i: nat, p: nat)
    requires Fits(files) && i < |files| && p < |files[i].data|
    requires WellFormed(Layout(files)) && InodeCount(Layout(files)) == |files| && Length(Layout(files), i) == |files[i].data|
    ensures FileBytes(Layout(files), i)[p] == files[i].data[p]
  {
    hide AllChunks;
    hide Chunks;
    hide Layout;
    hide Word;
    hide WellFormed;
    hide FileBytes;
    hide BlockAddr;
    hide Length;
    hide InodeCount;
    var img, k, b := Layout(files), p / 4096, p % 4096;
    ChunksOf(files[i].data);
    assert Chunks(files[i].data)[k][b] == files[i].data[4096 * k + b];
    DataBlock(files, i, k);
    FileByteAt(img, i, k, b);
    var at := BlockAddr(img, i, k);
    assert img[at..at + 4096][b] == img[at + b];
  }

  ghost function Disk(files: seq<File>): (img: Image)
    requires Fits(files)
    ensures WellFormed(img) && img == Layout(files)
  {
    LayoutIsWellFormed(files);
    Layout(files)
  }

  /** And through the system calls: a regular file that is laid out, opened by its name and read in
      any pieces, whatever else the process opens, reads and closes in between, comes back byte for
      byte from its first one on. */
  lemma ReadBack(files: seq<File>, i: nat, t: Table, behind: Fd, calls: seq<Call>)
    requires Fits(files) && i < |files| && files[i].kind == 2 && TableOk(t)
    requires var name := files[i].name;
      && name != [] && name[0] != 46 && !StartsWith(name, [114, 116, 99])
      && forall k :: 0 <= k < i ==> files[k].name != name
    requires OpenSpec(Disk(files), t, files[i].name, behind).ret >= 0
    requires StaysOpen(calls, OpenSpec(Disk(files), t, files[i].name, behind).ret)
    ensures var o := OpenSpec(Disk(files), t, files[i].name, behind);
      TableOk(o.table) && Concat(Replies(Disk(files), o.table, calls, o.ret)) == Slice(files[i].data, 0, Sum(Counts(calls, o.ret)))
  {
    hide Layout;
    hide WellFormed;
    LayoutIsWellFormed(files);
    hide Word;
    hide OpenSpec;
    hide Replies;
    hide StaysOpen;
    hide Concat;
    hide AllChunks;
    hide FileBytes;
    hide EntryName;
    hide EntryInode;
    hide EntryType;
    var img := Disk(files);
    assert FileFits(files[i]);
    forall k | 0 <= k <= i ensures k < DirCount(img) && EntryName(img, k) == files[k].name {
      RoundTrip(files, k);
      assert Names(img)[k] == EntryName(img, k);
    }
    RoundTrip(files, i);
    assert IsRegularFile(img, files[i].name, i);
    OpenedFileReadsInOrder(img, t, files[i].name, i, behind, calls);
  }
}
