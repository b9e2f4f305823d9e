/** The page tables (student-distrib/paging.c) read through the 32-bit paging translation of the
    Intel 64 and IA-32 manual, volume 3A, section 4.3. An entry is a 32-bit number: a base with
    its low bits clear, combined with flag bits. */
module Paging {
  import opened Arithmetic
  import opened Processes
  import opened ProcessLaws
  import opened CallStacks

  const ENTRIES := 1024
  const KB4 := 0x1000
  const MB4 := 0x40_0000
  const P := 0x01
  const RW := 0x02
  const US := 0x04
  const PS := 0x80
  const KERNEL_ADDR := 0x40_0000
  const VIDMEM := 0xB8
  const PROGRAM_ADDR := 0x800_0000   // where page_directory[32] puts the process
  const VIDMAP_ADDR := 0x840_0000    // where page_directory[33] puts the video page

  /** `base | flags` where the bits do not overlap. */
  function Entry(base: nat, flags: nat): nat
    requires base % KB4 == 0 && flags < KB4
  {
    base + flags
  }

  /** `phys | 7`, for an address that need not be aligned. */
  function UserEntry(phys: nat): (e: nat)
    ensures phys % KB4 == 0 ==> e == phys + 7
  {
    phys / 8 * 8 + 7
  }

  function Present(e: nat): bool { e % 2 == 1 }
  function UserBit(e: nat): bool { (e / 4) % 2 == 1 }
  function SizeBit(e: nat): bool { (e / 128) % 2 == 1 }
  function Base(e: nat): nat { e / KB4 * KB4 }

  /** The three tables as memory holds them, and where the two page tables are. */
  datatype Tables = Tables(directory: seq<nat>, table: seq<nat>, vidmem: seq<nat>, tableAddr: nat, vidmemAddr: nat)

  ghost predicate TablesOk(g: Tables) {
    && |g.directory| == |g.table| == |g.vidmem| == ENTRIES
    && g.tableAddr % KB4 == g.vidmemAddr % KB4 == 0
    && g.tableAddr != g.vidmemAddr
  }

  datatype Mapping = NotMapped | Mapped(phys: nat, user: bool)

  /** The translation of a virtual address below 4GB. */
  function Translate(g: Tables, va: nat): Mapping
    requires TablesOk(g) && va < 0x1_0000_0000
  {
    var pde := g.directory[va / MB4];
    if !Present(pde) then NotMapped
    else if SizeBit(pde) then Mapped(pde / MB4 * MB4 + va % MB4, UserBit(pde))
    else if Base(pde) == g.tableAddr then Through(pde, g.table[va / KB4 % ENTRIES], va)
    else if Base(pde) == g.vidmemAddr then Through(pde, g.vidmem[va / KB4 % ENTRIES], va)
    else NotMapped
  }

  function Through(pde: nat, pte: nat, va: nat): Mapping {
    if Present(pte) then Mapped(Base(pte) + va % KB4, UserBit(pde) && UserBit(pte)) else NotMapped
  }

  /** The tables of a machine that shows the process at physical address `frame` (0 for none)
      and has or has not mapped the video page for the user. */
  function Built(tableAddr: nat, vidmemAddr: nat, frame: nat, vidmapped: bool): (g: Tables)
    requires tableAddr % KB4 == vidmemAddr % KB4 == 0 && tableAddr != vidmemAddr
    ensures TablesOk(g)
  {
    Tables(
      seq(ENTRIES, i requires 0 <= i < ENTRIES => DirectoryEntry(tableAddr, vidmemAddr, frame, vidmapped, i)),
      seq(ENTRIES, i requires 0 <= i < ENTRIES => TableEntry(i)),
      seq(ENTRIES, i requires 0 <= i < ENTRIES => VideoEntry(vidmapped, i)),
      tableAddr, vidmemAddr)
  }

  function DirectoryEntry(tableAddr: nat, vidmemAddr: nat, frame: nat, vidmapped: bool, i: nat): nat {
    if i == 0 then tableAddr + 7
    else if i == 1 then KERNEL_ADDR + 0x83
    else if i == 32 && frame != 0 then frame + 0x87
    else if i == 33 && vidmapped then vidmemAddr + 7
    else RW
  }

  function TableEntry(i: nat): nat {
    i * KB4 + if VIDMEM <= i <= VIDMEM + 3 then 7 else RW
  }

  function VideoEntry(vidmapped: bool, i: nat): nat {
    if i == 0 && vidmapped then VIDMEM * KB4 + 7 else 0
  }

  // ----- the code

  class PageTables {
    const directory: array<nat>
    const table: array<nat>
    const vidmem: array<nat>
    const tableAddr: nat
    const vidmemAddr: nat
    ghost var frame: nat
    ghost var vidmapped: bool

    ghost function View(): Tables
      reads directory, table, vidmem
    {
      Tables(directory[..], table[..], vidmem[..], tableAddr, vidmemAddr)
    }

    ghost predicate Shape() {
      && directory.Length == table.Length == vidmem.Length == ENTRIES
      && directory != table && directory != vidmem && table != vidmem
      && tableAddr % KB4 == vidmemAddr % KB4 == 0 && tableAddr != vidmemAddr
    }

    ghost predicate Valid()
      reads this, directory, table, vidmem
    {
      && Shape()
      && (forall i :: 0 <= i < ENTRIES ==> directory[i] == DirectoryEntry(tableAddr, vidmemAddr, frame, vidmapped, i))
      && (forall i :: 0 <= i < ENTRIES ==> table[i] == TableEntry(i))
      && (forall i :: 0 <= i < ENTRIES ==> vidmem[i] == VideoEntry(vidmapped, i))
    }

    lemma ValidView()
      requires Valid()
      ensures View() == Built(tableAddr, vidmemAddr, frame, vidmapped)
    {
    }

    /** The tables are zero when the kernel starts. */
    constructor (tableAddr: nat, vidmemAddr: nat)
      requires tableAddr % KB4 == vidmemAddr % KB4 == 0 && tableAddr != vidmemAddr
      ensures Shape() && fresh(directory) && fresh(table) && fresh(vidmem)
      ensures this.tableAddr == tableAddr && this.vidmemAddr == vidmemAddr
      ensures forall i :: 0 <= i < ENTRIES ==> vidmem[i] == 0
    {
      directory := new nat[ENTRIES](_ => 0);
      table := new nat[ENTRIES](_ => 0);
      vidmem := new nat[ENTRIES](_ => 0);
      this.tableAddr := tableAddr;
      this.vidmemAddr := vidmemAddr;
    }

    method InitPaging()
      requires Shape() && forall i :: 0 <= i < ENTRIES ==> vidmem[i] == 0
      modifies this, directory, table
      ensures Valid() && frame == 0 && !vidmapped
    {
      var i := 0;
      while i < ENTRIES
        invariant 0 <= i <= ENTRIES
        invariant forall k :: 0 <= k < i ==> directory[k] == RW
      {
        directory[i] := RW;
        i := i + 1;
      }
      directory[1] := Entry(KERNEL_ADDR, PS + P + RW);
      i := 0;
      while i < ENTRIES
        invariant 0 <= i <= ENTRIES
        invariant forall k :: 0 <= k < i ==> table[k] == TableEntry(k)
        invariant forall k :: 0 <= k < ENTRIES && k != 1 ==> directory[k] == RW
        invariant directory[1] == KERNEL_ADDR + 0x83
      {
        if i >= VIDMEM && i <= VIDMEM + 3 {
          table[i] := Entry(i * KB4, P + RW + US);
        } else {
          table[i] := Entry(i * KB4, RW);
        }
        i := i + 1;
      }
      directory[0] := Entry(tableAddr, P + RW + US);
      frame, vidmapped := 0, false;
    }

    method SetProcessPage(addr: nat)
      requires Valid() && addr != 0 && addr % MB4 == 0
      modifies this, directory
      ensures Valid() && frame == addr && vidmapped == old(vidmapped)
    {
      hide TableEntry;
      hide VideoEntry;
      FrameIsAligned(addr);
      directory[32] := Entry(addr, 0x87);
      frame := addr;
    }

    /** `map2user`, for any physical address. `vidmap` asks for the video page in entry 0. */
    method MapToUser(phys: nat, destPage: nat, kind: nat)
      requires Shape() && destPage < ENTRIES
      modifies this, directory, vidmem
      ensures kind == 1 ==> vidmem[destPage] == UserEntry(phys) && directory[33] == vidmemAddr + 7
      ensures kind != 1 ==> vidmem[destPage] == old(vidmem[destPage]) && directory[33] == old(directory[33])
      ensures forall i :: 0 <= i < ENTRIES && i != destPage ==> vidmem[i] == old(vidmem[i])
      ensures forall i :: 0 <= i < ENTRIES && i != 33 ==> directory[i] == old(directory[i])
      ensures old(Valid()) && phys == VIDMEM * KB4 && destPage == 0 ==>
        Valid() && frame == old(frame) && vidmapped == (old(vidmapped) || kind == 1)
    {
      if kind == 1 {
        vidmem[destPage] := UserEntry(phys);
        directory[33] := Entry(vidmemAddr, US + RW + P);
        vidmapped := true;
      }
    }
  }

  // ----- what a user program can reach

  function FrameOf(pid: nat): nat { 0x80_0000 + pid * MB4 }

  /** The kernel block of a process: its control block below, its kernel stack above. */
  ghost predicate InKernelBlock(pid: nat, pa: int) {
    MB8 - (pid + 1) * KB8 <= pa < MB8 - pid * KB8
  }

  ghost predicate InFrame(pid: nat, pa: nat) {
    FrameOf(pid) <= pa < FrameOf(pid) + MB4
  }

  ghost predicate UserReaches(g: Tables, va: nat, pa: nat)
    requires TablesOk(g) && va < 0x1_0000_0000
  {
    Translate(g, va) == Mapped(pa, true)
  }

  /** An entry for a page or a table with the present, write and user bits. */
  lemma SmallEntry(base: nat)
    requires base % KB4 == 0
    ensures Present(base + 7) && UserBit(base + 7) && !SizeBit(base + 7) && Base(base + 7) == base
    ensures !Present(base + RW)
  {
    var n := base / 4096;
    Divided(base + 7, 2, 2048 * n + 3, 1);
    Divided(base + 2, 2, 2048 * n + 1, 0);
    Divided(base + 7, 4, 1024 * n + 1, 3);
    Divided(1024 * n + 1, 2, 512 * n, 1);
    Divided(base + 7, 128, 32 * n, 7);
    Divided(32 * n, 2, 16 * n, 0);
    Divided(base + 7, 4096, n, 7);
  }

  lemma FrameIsAligned(frame: nat)
    requires frame % MB4 == 0
    ensures frame % KB4 == 0
  {
    var n := frame / 0x40_0000;
    assert frame == 0x40_0000 * n;
    Divided(frame, 0x1000, 1024 * n, 0);
  }

  lemma FrameEntry(frame: nat)
    requires frame % MB4 == 0
    ensures Present(frame + 0x87) && UserBit(frame + 0x87) && SizeBit(frame + 0x87)
    ensures (frame + 0x87) / MB4 * MB4 == frame
  {
    var n := frame / 0x40_0000;
    Divided(frame + 135, 2, 2097152 * n + 67, 1);
    Divided(frame + 135, 4, 1048576 * n + 33, 3);
    Divided(1048576 * n + 33, 2, 524288 * n + 16, 1);
    Divided(frame + 135, 128, 32768 * n + 1, 7);
    Divided(32768 * n + 1, 2, 16384 * n, 1);
    Divided(frame + 135, 0x40_0000, n, 135);
  }

  lemma SplitAddress(va: nat)
    requires va < 0x1_0000_0000
    ensures va / MB4 < ENTRIES
    ensures va == va / MB4 * MB4 + va / KB4 % ENTRIES * KB4 + va % KB4
    ensures va % MB4 == va - va / MB4 * MB4
  {
    var d, p := va / MB4, va / KB4;
    assert p / ENTRIES == d;
  }

  /** Exactly these addresses are open to the user: the 4MB of the mapped frame, the four video
      pages where they are, and after `vidmap` the first of them once more at 132MB. */
  lemma UserWindow(tableAddr: nat, vidmemAddr: nat, frame: nat, vidmapped: bool, va: nat, pa: nat)
    requires tableAddr % KB4 == vidmemAddr % KB4 == 0 && tableAddr != vidmemAddr
    requires frame % MB4 == 0 && va < 0x1_0000_0000
    ensures UserReaches(Built(tableAddr, vidmemAddr, frame, vidmapped), va, pa) <==>
      || (frame != 0 && 0x800_0000 <= va < 0x840_0000 && pa == frame + (va - 0x800_0000))
      || (0xB_8000 <= va < 0xB_C000 && pa == va)
      || (vidmapped && 0x840_0000 <= va < 0x840_1000 && pa == 0xB_8000 + (va - 0x840_0000))
  {
    var g := Built(tableAddr, vidmemAddr, frame, vidmapped);
    var d, p := va / MB4, va / KB4 % ENTRIES;
    SplitAddress(va);
    hide Present;
    hide UserBit;
    hide SizeBit;
    hide Base;
    SmallEntry(0);
    SmallEntry(tableAddr);
    SmallEntry(vidmemAddr);
    FrameEntry(frame);
    SmallEntry(VIDMEM * KB4);
    SmallEntry(p * KB4);
    KernelEntry();
    if d == 0 {
      assert g.directory[d] == tableAddr + 7;
    } else if d == 33 && vidmapped {
      assert g.directory[d] == vidmemAddr + 7;
    }
  }

  /** The kernel's own window: 4MB to 8MB, each address to itself, closed to the user. Nothing else
      is mapped that the user cannot reach. */
  lemma KernelWindow(tableAddr: nat, vidmemAddr: nat, frame: nat, vidmapped: bool, va: nat, pa: nat)
    requires tableAddr % KB4 == vidmemAddr % KB4 == 0 && tableAddr != vidmemAddr
    requires frame % MB4 == 0 && va < 0x1_0000_0000
    ensures Translate(Built(tableAddr, vidmemAddr, frame, vidmapped), va) == Mapped(pa, false) <==>
      0x40_0000 <= va < 0x80_0000 && pa == va
  {
    var g := Built(tableAddr, vidmemAddr, frame, vidmapped);
    var d, p := va / MB4, va / KB4 % ENTRIES;
    SplitAddress(va);
    hide Present;
    hide UserBit;
    hide SizeBit;
    hide Base;
    SmallEntry(0);
    SmallEntry(tableAddr);
    SmallEntry(vidmemAddr);
    FrameEntry(frame);
    SmallEntry(VIDMEM * KB4);
    SmallEntry(p * KB4);
    KernelEntry();
  }

  lemma KernelEntry()
    ensures Present(KERNEL_ADDR + 0x83) && SizeBit(KERNEL_ADDR + 0x83) && !UserBit(KERNEL_ADDR + 0x83)
    ensures !Present(RW) && !Present(0)
  {
  }

  lemma FramesAndBlocksDisjoint(a: nat, b: nat, pa: nat)
    requires a < PIDS && b < PIDS && a != b
    ensures !(InFrame(a, pa) && InFrame(b, pa))
    ensures !(InKernelBlock(a, pa) && InKernelBlock(b, pa))
  {
  }

  /** The six frames fill the memory from 8MB to 32MB exactly, and the six kernel blocks the 48KB
      below 8MB. */
  lemma FramesAndBlocksTile(pa: nat)
    ensures 0x80_0000 <= pa < 0x200_0000 <==> exists pid: nat :: pid < 6 && InFrame(pid, pa)
    ensures 0x80_0000 - 0xC000 <= pa < 0x80_0000 <==> exists pid: nat :: pid < 6 && InKernelBlock(pid, pa)
  {
    if 0x80_0000 <= pa < 0x200_0000 {
      assert InFrame((pa - 0x80_0000) / 0x40_0000, pa);
    }
    if 0x80_0000 - 0xC000 <= pa < 0x80_0000 {
      assert InKernelBlock((0x7F_FFFF - pa) / 0x2000, pa);
    }
  }

  /** The order of the frames and blocks: pid 0 has the lowest frame and the highest block. */
  lemma FramesInOrder(a: nat, b: nat, pa: nat, pb: nat)
    requires a < b < 6
    ensures InFrame(a, pa) && InFrame(b, pb) ==> pa < pb
    ensures InKernelBlock(a, pa) && InKernelBlock(b, pb) ==> pa > pb
  {
  }

  /** The stack the processor switches to has the whole block of the process on display below it,
      but for the word on top: no push leaves the block until it is full. */
  lemma StackFillsBlock(s: State, pa: nat)
    requires Good(s) && Depth(s, s.cur) > 0
    ensures s.esp0 - (0x2000 - 4) <= pa <= s.esp0 + 3 <==> InKernelBlock(Top(s, s.cur), pa)
  {
  }

  /** In every state that runs in which only shells call `execute` can reach, whatever a user
      address reaches lies in the frame of the process on display or in the video pages: never
      in the frame of another process, never in any process's kernel block. The stack the
      processor switches to lies in the kernel block of the process on display. */
  lemma DisplayedProcessIsolated(s: State, tableAddr: nat, vidmemAddr: nat, vidmapped: bool, va: nat, pa: nat, other: nat)
    requires Good(s) && Depth(s, s.cur) > 0
    requires tableAddr % KB4 == vidmemAddr % KB4 == 0 && tableAddr != vidmemAddr
    requires va < 0x1_0000_0000 && other < PIDS
    ensures s.page >= 0 && Top(s, s.cur) < PIDS
    ensures UserReaches(Built(tableAddr, vidmemAddr, FrameOf(s.page), vidmapped), va, pa) ==>
      && (InFrame(Top(s, s.cur), pa) || VIDMEM * KB4 <= pa < (VIDMEM + 4) * KB4)
      && (other != Top(s, s.cur) ==> !InFrame(other, pa))
      && !InKernelBlock(other, pa)
    ensures InKernelBlock(Top(s, s.cur), s.esp0)
  {
    assert SlotsOk(s.terminals[s.cur], s.active);
    var pid := Top(s, s.cur);
    var g := Built(tableAddr, vidmemAddr, FrameOf(pid), vidmapped);
    if UserReaches(g, va, pa) {
      UserWindow(tableAddr, vidmemAddr, FrameOf(pid), vidmapped, va, pa);
      if other != pid { FramesAndBlocksDisjoint(other, pid, pa); }
    }
  }

  /** Two runs' worth of user access to two processes meet in the video pages only. */
  lemma ProcessesShareOnlyVideo(tableAddr: nat, vidmemAddr: nat, a: nat, b: nat, va: nat, vb: nat, pa: nat, mapA: bool, mapB: bool)
    requires tableAddr % KB4 == vidmemAddr % KB4 == 0 && tableAddr != vidmemAddr
    requires a < PIDS && b < PIDS && a != b && va < 0x1_0000_0000 && vb < 0x1_0000_0000
    requires UserReaches(Built(tableAddr, vidmemAddr, FrameOf(a), mapA), va, pa)
    requires UserReaches(Built(tableAddr, vidmemAddr, FrameOf(b), mapB), vb, pa)
    ensures VIDMEM * KB4 <= pa < (VIDMEM + 4) * KB4
  {
    hide UserReaches;
    hide Built;
    UserWindow(tableAddr, vidmemAddr, FrameOf(a), mapA, va, pa);
    UserWindow(tableAddr, vidmemAddr, FrameOf(b), mapB, vb, pa);
    FramesAndBlocksDisjoint(a, b, pa);
  }
}
