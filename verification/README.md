# lmaOS: a verified model of its stateful core

lmaOS is a small x86 teaching kernel with a handful of user programs. Almost everything in it that
can go wrong goes wrong through state that is changed in place: six process ids handed round three
terminals, one screen and one keyboard that have to pass for three, a file system walked one byte at
a time, buffers that are shifted under the lines they hold. This project models that code in Dafny
and proves what it keeps, over every input, every interleaving and every run.

Code that updates variables is written as methods with loops and classes with fields
(`Descriptors.Process`, `Processes.ProcessTable`, `Paging.PageTables`, `Blink.BlinkList`,
`TerminalSystem.Console`, `TerminalSystem.System`). Each such method is proved equal to a function on
values (`ExecuteSpec`, `Step`, `Put`, `TickSpec`, `Report`, ...), and the lemmas then prove what the
system promises about those functions, over whole runs where that is the promise.

| files | part of lmaOS |
|---|---|
| `FileSystem`, `Layout`, `Descriptors`, `Cursors`, `Loader` | the read-only file system and images to read, the descriptor table, loading a program |
| `Processes`, `ProcessLaws`, `PidAccounting`, `CallStacks`, `Paging` | execute, halt, terminal switch; pids; page tables |
| `Screen`, `LineEditor`, `Terminals`, `TerminalSystem` | console, line editor, three terminals on one screen |
| `Grep`, `CatLs`, `Commands` | the user programs and the two command-line splitters |
| `Blink`, `BlinkLaws` | the list of blinking characters of `fish` |
| `CStrings`, `Memory`, `Numbers` | the string, memory and number routines |
| `Differences` | an input for every difference listed below |
| `Bytes`, `Counting`, `Arithmetic`, `Messages` | shared helpers and the programs' messages |

`dafny verify dfyconfig.toml` checks everything.

## Where the code differs from its intent

The model follows the code. Each difference below is stated as the exact condition under which the
code does what is intended, or as what happens instead, and shown at an input in `Differences`.

- A program word of more than 32 characters takes a pid and never gives it back
  (student-distrib/syscall.c:152-179). `PidAccounting.LostStep` says this is the only way to lose one,
  `PidAccounting.LostForever` that it stays lost, `PidAccounting.SomeoneRuns` that at most five can be
  lost while anything runs, `PidAccounting.FiveLostIsTheEnd` that after five nothing that runs can start
  a program again, and `PidAccounting.CountsFromStart` that otherwise the books balance. Inputs:
  `Differences.LongWordLosesPid`, `Differences.FiveLongWords`.
- `execute` records the topmost shell as the parent, not its caller
  (student-distrib/syscall.c:270-275). `CallStacks.ParentIsCallerIffShell`: the two are the same if and
  only if the caller is a shell. Input: `Differences.GrandchildOfShell`.
- `execute` keeps the length of a program in 16 bits and reads at most `inode_count * 4096` bytes
  (student-distrib/syscall.c:148, :215). `Loader.WholeFileLoaded`: a file is loaded whole if and only
  if it is at most 65535 bytes long and within that read. Input: `Differences.NothingLoaded`, a program
  of 64KB that starts without one of its bytes.
- `execute` compares four bytes with the magic number however few it read
  (student-distrib/syscall.c:215-219). `Loader.Prepare`: what was not read is what the stack held.
  Input: `Differences.EmptyFileStarts`, the command "." after a program.
- `open` looks for a free descriptor of 2..7 and, when there is none, goes on with the memory behind
  the table (student-distrib/syscall.c:448-461). `Cursors.OpenOutcome`: the table never changes then,
  and the call still succeeds, with the number 8, if and only if the name is the clock's and that
  memory does not look like an open descriptor. Input: `Differences.ClockOnFullTable`.
- `grep` cuts lines at 1024 bytes (syscalls/ece391grep.c:21-57). `Grep.PrintsMatchingLines`: it prints
  exactly the matching lines if and only if no matching line is longer than that. Input:
  `Differences.LongLineSplit`. Of files with NULs it prints records too, of a content that depends on
  what the buffer held (`Grep.SearchDescriptor`).
- Backspace stops in the prompt's column on every row, not only at the prompt, and that column is
  shared by the terminals (student-distrib/keyboard.c:166-182). `LineEditor.BackspaceMeetsIntent`: it
  removes the last character if and only if the line does not end in that column - for the line's own
  prompt, if and only if its length is not a multiple of 80 - and else does nothing. Input:
  `Differences.BackspaceStops`.
- A backspace across the start of a row takes the character off the screen but leaves it in the key
  buffer (student-distrib/keyboard.c:182-196), and keys such as Tab and Esc type a NUL
  (student-distrib/keyboard.c:54-63). `LineEditor.ShellGetsTheLine`: the shell gets the line that is on
  the screen if and only if it is shorter than 128 characters, holds no NUL, and the byte behind it is
  clear or is the 128th. Inputs: `Differences.CharacterLeftBehind`, `Differences.TabEndsTheCommand`.
- Ctrl-L empties the screen but not the key buffer (student-distrib/keyboard.c:222-237).
  `LineEditor.ClearedLine`: of the characters typed next the shell gets just those if and only if, in
  addition, the old byte behind them is clear; `LineEditor.ClearedOldLine` says it in terms of the old
  line, `LineEditor.EditedAfterClear` with backspaces. Input: `Differences.OldLineShowsThrough`.
- The column where backspace stops is shared by the terminals and not set by Ctrl-L, so a backspace
  can erase with nothing typed. `LineEditor.IndexWraps`: exactly then the key buffer's index wraps to
  255, and no key types any more. Input: `Differences.BackspaceKillsKeyboard`.
- A blink length of 0 counts as one tick, and so does one over 32768, since countdowns are compared
  as signed numbers (fish/blink.S:64-66). `BlinkLaws.BlinkMeetsIntent`: a blinker keeps the period its
  lengths say if and only if both are 1 to 32768. Inputs: `Differences.LongBlinkIsShort`,
  `Differences.NoBlinkIsSome`.
- The kernel hands a program its argument text unchanged and fails when there is none; the emulation
  takes the text apart, joins it with single spaces, and fails when it does not fit. For arguments of
  up to 128 characters, all the kernel has room for, and counts that are not negative,
  `Commands.DeliverSame` gives the exact condition, over return values and buffers, under which the
  two deliver the same. Inputs: `Differences.NoArgument`, `Differences.TwoSpaces`.

## Model

| member | source | states |
|---|---|---|
| FileSystem.BlocksAt | student-distrib/filesys.c:100-123 | the concatenation of an inode's blocks holds byte `b` of block `k` at position `4096 k + b` |
| FileSystem.FileByteAt | student-distrib/filesys.c:107-125 | in a well-formed image, the flat file at position `4096 k + b` is the image byte at the address the walker computes, and that address is inside the image |
| FileSystem.ReadData | student-distrib/filesys.c:90-134 | the block walk returns min(length, what is left of the file), writes exactly that slice of the flat file, and touches no other byte of the buffer; a bad inode number reads nothing |
| FileSystem.SliceSlice | student-distrib/filesys.c:146-161 | reading `a` bytes and then `b` bytes where the first read stopped is reading `a + b` bytes |
| FileSystem.ReadDentryByIndex | student-distrib/filesys.c:65-81 | an index below the directory count gives that entry with its NUL-padded name field, any other fails |
| FileSystem.ReadDentryByName | student-distrib/filesys.c:31-55 | finds the first entry whose name equals the given one, both cut at a NUL or 32 bytes, and fails when there is none |
| Layout.LayoutIsWellFormed | student-distrib/filesys.c:10-21 | any files that fit, laid out in the format, make a well-formed image |
| Layout.RoundTrip | student-distrib/filesys.c:10-134 | an image laid out from given files gives them back: names of up to 32 characters, types, inodes, and every byte of every file, through little-endian words, block numbers and blocks |
| Layout.ReadBack | student-distrib/syscall.c:377-497 | a regular file laid out, opened by its name and read in any pieces, whatever else is opened, read and closed in between, comes back from its first byte on |
| CStrings.Strncmp | student-distrib/lib.c:426-440 | zero exactly when the two texts, cut at their NULs or at `n` bytes, are equal; otherwise the signed difference of the first characters that differ, a text that has ended counting as NUL |
| CStrings.Strncpy | student-distrib/lib.c:463-474 | the `n` bytes at the destination hold the text cut at `n` bytes and padded with NULs; nothing else changes |
| CStrings.StrncpyFieldText | student-distrib/lib.c:463-474 | reading such a field back gives the text cut at `n` bytes |
| Descriptors.LowestFree | student-distrib/syscall.c:448-453 | every descriptor before the result is open and the result, when there is one, is free |
| Descriptors.Process.constructor | student-distrib/syscall.c:278-285 | the two terminal descriptors are set up and 2..7 stay as the control block held them |
| Descriptors.Process.Open | student-distrib/syscall.c:435-497 | the new table and the result are those of `OpenSpec`: the lowest free descriptor of 2..7 set up for the entry found, or -1 and an untouched table, or on a full table the clock stored behind it |
| Descriptors.Process.ChooseEntry | student-distrib/syscall.c:455-490 | the clock, directory and file branches in their order, the name tests (first 3 and first 1 bytes) overriding the type |
| Descriptors.Process.AnyFree | student-distrib/filesys.c:206-213 | finds out whether any descriptor has zero flags |
| Descriptors.Process.Read | student-distrib/syscall.c:377-401 | the buffer receives what `Delivered` says for that kind of descriptor, or the typed line, and nothing outside the bytes that kind of read touches; only that descriptor advances; closed descriptors, numbers outside 0..7, negative counts and the output descriptor give -1 and change nothing |
| Descriptors.Process.ReadKeys | student-distrib/terminal.c:172-183 | the typed line stands in the buffer with a NUL behind it |
| Descriptors.Process.ReadFile | student-distrib/filesys.c:146-161 | delivers the next slice of the file and advances the position by its length |
| Descriptors.Process.ReadDir | student-distrib/filesys.c:224-262 | delivers the entry's name and its length and advances by one entry; past the last entry it delivers nothing and stays |
| Descriptors.Process.StoreName | student-distrib/filesys.c:246-250 | clearing 33 bytes and then copying leaves the name, cut at the caller's count and padded, even when the name field has no NUL |
| Descriptors.Process.ReadEntry | syscalls/ece391ls.c:18 | a 32-byte read of a directory is exactly the next name, and zero at the end |
| Descriptors.Process.Close | student-distrib/syscall.c:507-528 | an open descriptor of 2..7 is closed and reset, anything else gives -1 and changes nothing |
| Descriptors.Process.Write | student-distrib/syscall.c:413-425 | only descriptor 1 reaches the terminal, and it takes every byte in order; the clock accepts four bytes that hold a known rate; everything else gives -1 and prints nothing |
| Descriptors.Process.PrintBytes | student-distrib/terminal.c:207-211 | the loop prints every byte in order |
| Descriptors.Process.SetRate | student-distrib/rtc.c:100-115 | succeeds exactly for four bytes that hold a power of two from 2 to 1024 |
| Descriptors.Process.Puts | syscalls/ece391support.c:6-22 | exactly the text up to the first NUL is printed |
| Descriptors.OpenedShape | student-distrib/syscall.c:455-486 | a descriptor that `open` sets up is open, at position zero, and of one of three kinds |
| Descriptors.OpenedAs | student-distrib/syscall.c:455-490 | the first entry of a name gets a clock, a directory or its file by its type number 0, 1 or 2, unless the name starts with "rtc" or a dot; any other type is refused |
| Descriptors.NotOpened | student-distrib/syscall.c:441-446 | no name that is empty, over 32 characters or in no entry can be opened |
| Descriptors.WritesRefused | student-distrib/syscall.c:413-425 | a write to anything but the terminal and the clock gives -1 |
| Descriptors.RatesArePowers | student-distrib/rtc.c:159-200 | the clock's rates are the powers of two from 2 to 1024 |
| Descriptors.DirTextIs | student-distrib/filesys.c:246-250 | a directory read of fewer bytes than the name has delivers that many of them, and NULs |
| Descriptors.TouchedBytes | student-distrib/filesys.c:246-248 | how many bytes each kind of read may write: 33 at least for a directory |
| Cursors.StepKeepsTable | student-distrib/syscall.c:377-528 | every call keeps the table sound: the terminal descriptors stay, open ones are of a known kind |
| Cursors.OthersUntouched | student-distrib/syscall.c:377-528 | a call leaves every open descriptor alone except the one it reads or closes |
| Cursors.OpenOutcome | student-distrib/syscall.c:448-497 | the table is untouched exactly when the name cannot be opened or 2..7 are all open; the result is then 8, a number every other call refuses, if and only if the name is the clock's and the memory behind the table does not look open, and else -1; otherwise it is the lowest free descriptor |
| Cursors.CloseFrees | student-distrib/syscall.c:507-528 | `close` gives the descriptor back to the next `open`, leaves every other one as it was, and makes reads of it and a second `close` fail |
| Cursors.ClosedFails | student-distrib/syscall.c:382-388 | reads and closes of a descriptor that is not open or out of range fail and change nothing |
| Cursors.FileCursor | student-distrib/filesys.c:146-161 | over any interleaving of calls that does not close it, the reads of a file descriptor concatenate to the file from its position on, as far as was asked for |
| Cursors.DirCursor | student-distrib/filesys.c:224-262 | over any such interleaving the n-th read of a directory descriptor delivers the n-th name from its position on, then nothing |
| Cursors.DirReplyCount | student-distrib/syscall.c:377-401 | every read of an open directory descriptor with a non-negative count is answered |
| Cursors.RegularFileOpens | student-distrib/syscall.c:477-482 | the first entry of a name, of type 2, is opened as the file of its inode |
| Cursors.OpenedFileReadsInOrder | student-distrib/syscall.c:477-482 | such a file, opened and read in any pieces, whatever else is opened, read and closed in between, yields its bytes from the first on |
| Loader.Prepare | student-distrib/syscall.c:128-223 | a command is empty, too long, not found, not executable or loaded exactly as its first word, the directory, and the first four bytes of the file it names, completed by what the stack held, say; when it loads, the argument is the rest of the line and the file's bytes stand at the program address; when it does not, nothing is written there |
| Loader.LoadImage | student-distrib/syscall.c:215-223 | succeeds exactly when the bytes read, followed by the old bytes behind them, start with the magic number, and then the bytes read stand at the program address |
| Loader.WholeFileLoaded | student-distrib/syscall.c:215-307 | the loaded image is the whole file if and only if the file is at most 65535 bytes and at most `inode_count * 4096` bytes long |
| Loader.ShellLoads | student-distrib/syscall.c:206-297 | the command `shell` passes the parser, the lookup and the magic test, and is taken for the shell, if and only if a file of that name passes the magic test |
| Loader.TakenForShell | student-distrib/syscall.c:295-297 | a program that loads is taken for the shell if and only if its word is "shell", and it is one of the directory's files that passes the magic test |
| Loader.LongFileMagic | student-distrib/syscall.c:219 | for files of four bytes or more the magic test is about the file alone |
| Loader.ImageStands | student-distrib/syscall.c:306-307 | the program image stands byte for byte from the program address on |
| Processes.ProcessTable.constructor | student-distrib/terminal.c:15-35 | no pid is active, every slot is free and every terminal is still to be run for the first time |
| Processes.ProcessTable.Execute | student-distrib/syscall.c:124-364 | the whole table and the pid that runs next are those of `ExecuteSpec`, on each of the error paths and on success |
| Processes.ProcessTable.Link | student-distrib/syscall.c:243-343 | slot, parent, counters, last shell, mapped page and kernel stack after a program is linked in |
| Processes.ProcessTable.Halt | student-distrib/syscall.c:34-110 | the whole table and the pid resumed are those of `HaltSpec`, including the inactive process and the base shell |
| Processes.ProcessTable.Unlink | student-distrib/syscall.c:60-73 | the first slot with the pid is freed, the pid is idle, and the last shell falls back to the parent |
| Processes.ProcessTable.Switch | student-distrib/terminal.c:46-113 | the whole table and the pid shown are those of `SwitchSpec`, with a shell on a terminal's first showing |
| Processes.ProcessTable.FirstFree | student-distrib/syscall.c:618-622 | finds the first free slot, or 4 |
| ProcessLaws.ExecutePushes | student-distrib/syscall.c:124-275 | a program starts exactly when its file loads, a pid is idle and the terminal has a slot; it gets the lowest idle pid and is pushed on the displayed terminal only; a failed call changes nothing unless the word was too long |
| ProcessLaws.HaltPops | student-distrib/syscall.c:34-110 | `halt` pops the displayed terminal, frees exactly that pid and resumes its recorded parent; on the last process the shell command decides what is left |
| ProcessLaws.SwitchShows | student-distrib/terminal.c:76-111 | a switch changes no stack and no pid, except that a first showing pushes one shell |
| ProcessLaws.RunningIsMapped | student-distrib/syscall.c:88-343 | after every call that ends with a process running - started, resumed, with or without a new shell, or shown - its frame is mapped and its kernel stack starts on top of its block |
| ProcessLaws.FreeSlotIsDepth | student-distrib/syscall.c:618-624 | the first free slot of a terminal is its process count |
| ProcessLaws.TopIsRunning | student-distrib/syscall.c:611-629 | on a non-empty terminal the process looked up is the last of the stack, and it is active |
| ProcessLaws.StepKeepsInv | student-distrib/syscall.c:34-364 | every execute, halt and switch keeps the invariant: occupied slots are a prefix of length `num_proc`, at most 4, every pid in a slot is active and in no other slot of any terminal |
| ProcessLaws.Run | student-distrib/syscall.c:34-364 | every run from a state with the invariant ends in one |
| ProcessLaws.StartIsGood | student-distrib/terminal.c:15-35 | the invariant holds at start |
| PidAccounting.PidConservation | student-distrib/syscall.c:152-158 | the three process counts plus the lost pids add up to the active pids, in every state with the invariant |
| PidAccounting.LostStep | student-distrib/syscall.c:173-179 | a step loses a pid exactly when it is an execute with an overlong word that got as far as taking one; it loses the lowest idle pid; no step recovers one |
| PidAccounting.ShortWordsLoseNothing | student-distrib/syscall.c:173-223 | on every run without an overlong word no pid is lost |
| PidAccounting.CountsFromStart | student-distrib/syscall.c:152-293 | on every such run from start the three process counts add up to the active pids |
| PidAccounting.LostForever | student-distrib/syscall.c:152-179 | a lost pid stays lost on every run |
| PidAccounting.SomeoneRuns | student-distrib/syscall.c:132-179 | while a process is on display at most five pids are lost, and with five lost they are all but its own |
| PidAccounting.FiveLostIsTheEnd | student-distrib/syscall.c:132-136 | once five are lost, on every run every command of a process on display fails and changes nothing |
| CallStacks.StartIsGoodCalls | student-distrib/terminal.c:15-35 | the call-stack invariant holds at start |
| CallStacks.StepKeepsCalls | student-distrib/syscall.c:34-343 | when only shells call execute, every step keeps every terminal a call stack: slot k's parent is slot k-1, the base shell is its own parent, everything below the top is a shell, `last_shell` is the topmost shell, and the mapped page and kernel stack are those of the displayed terminal's top |
| CallStacks.RunKeepsCalls | student-distrib/syscall.c:34-343 | so does every run |
| CallStacks.SwitchKeepsCalls | student-distrib/terminal.c:76-111 | so does a switch, a first showing included |
| CallStacks.FirstShowing | student-distrib/terminal.c:109-111 | on the machine as it starts, showing any terminal starts a base shell there as pid 0 and leaves the others unshown |
| CallStacks.FirstProgram | student-distrib/syscall.c:256-275 | the first program is its own parent, and on the first terminal it counts as the shell whatever it is |
| CallStacks.HaltResumesCaller | student-distrib/syscall.c:70-92 | `halt` resumes the process below on the stack; halting the base shell leaves a fresh base shell that is its own parent |
| CallStacks.RunKeepsBelow | student-distrib/syscall.c:34-364 | on every run on which a terminal never falls below level d (at least 2), its first d processes stay the same ones |
| CallStacks.CallReturns | student-distrib/syscall.c:34-364 | whatever ran since a program began, if its terminal never fell below the program's level and is at that level and on display now, `halt` resumes the program's caller and restores the caller's stack |
| CallStacks.ParentIsCallerIffShell | student-distrib/syscall.c:270-275 | the recorded parent is the caller if and only if the caller is a shell |
| Paging.PageTables.InitPaging | student-distrib/paging.c:26-68 | the directory and the table hold exactly the entries of a machine with no process and no user video page |
| Paging.PageTables.SetProcessPage | student-distrib/paging.c:79-84 | only the program entry changes, to the given frame |
| Paging.PageTables.MapToUser | student-distrib/paging.c:118-129 | a call of kind 1 stores exactly the given address with the user bits in the given entry and hooks the table up, any other kind changes nothing; the call `vidmap` makes adds the user video page |
| Paging.PageTables.ValidView | student-distrib/paging.c:26-129 | the three arrays are those the translation lemmas speak of |
| Paging.UserWindow | student-distrib/paging.c:26-129 | by the 32-bit translation, a user access to an address reaches a physical address if and only if it goes through the mapped 4MB frame, the four video pages, or the `vidmap` page |
| Paging.KernelWindow | student-distrib/paging.c:42-62 | exactly the addresses from 4MB to 8MB are mapped for the kernel alone, each to itself |
| Paging.FramesAndBlocksDisjoint | student-distrib/syscall.c:243-303 | the frames of two pids, and their 8KB kernel blocks, never overlap |
| Paging.FramesAndBlocksTile | student-distrib/syscall.c:243-303 | the six frames fill the memory from 8MB to 32MB exactly, and the six kernel blocks the 48KB below 8MB |
| Paging.FramesInOrder | student-distrib/syscall.c:243-303 | frames go up with the pid, kernel blocks down |
| Paging.StackFillsBlock | student-distrib/syscall.c:88-92 | in every state that call-stack runs reach, the kernel stack starts in the top word of the displayed process's block and has the rest of the block to grow into |
| Paging.DisplayedProcessIsolated | student-distrib/syscall.c:88-92 | in every state that call-stack runs reach, user accesses stay in the displayed process's frame and the video pages, never in another frame or any kernel block, and the kernel stack lies in the displayed process's own block |
| Paging.ProcessesShareOnlyVideo | student-distrib/paging.c:45-84 | two processes can reach the same physical byte only in the video pages |
| Screen.PutOnChars | student-distrib/lib.c:170-190 | `putc` on the 2000 cells: write at the cursor and move on, a break goes to the next row's start, and past the last row everything moves up and a NUL row comes in; attributes stay default |
| Screen.StartShows | student-distrib/lib.c:19-25 | a cleared screen is 2000 spaces with attribute 7 and, with the cursor at home, the window on the empty log |
| Screen.PutShows | student-distrib/lib.c:170-190 | one more character keeps the screen the window on the log |
| Screen.PrintedShows | student-distrib/lib.c:170-190 | for every string printed on a cleared screen the cells are the last-25-row window of the unbounded log, the cursor is where the log ends and stays in bounds, and every attribute is the default |
| LineEditor.TypeHolds | student-distrib/keyboard.c:238-246 | a typed character, NUL included, is appended to the key buffer and to the cells from the prompt, through row wraps and scrolls; with 128 characters it is dropped |
| LineEditor.EraseHolds | student-distrib/keyboard.c:160-198 | a backspace takes the last character off the text in the key buffer and on the screen, leaving it behind in the buffer across a row, or does nothing when the text ends in the stop column |
| LineEditor.EditorHolds | student-distrib/keyboard.c:160-261 | from a prompt, for every sequence of characters and backspaces, wherever each backspace stops, all 128 bytes of the key buffer, the index and the cells agree with the reference editor, started on whatever the buffer held; no store leaves the buffer |
| LineEditor.LeftBehind | student-distrib/keyboard.c:182-196 | from a clear buffer at most one character is ever left behind the line, and only when the last key was a backspace |
| LineEditor.IndexWraps | student-distrib/keyboard.c:172-175 | the index goes below zero exactly when a backspace erases with nothing typed, and then no key types any more |
| LineEditor.NextLineHolds | student-distrib/terminal.c:169-215 | after a read of the line and a prompt, the same holds for the next line, whatever was typed before, and after Enter |
| LineEditor.TypedAhead | student-distrib/keyboard.c:139-155 | Enter lets the next line be typed at once, over the old one: of its characters the next read gives the shell exactly those typed if and only if there is room, no NUL in it, and the old byte behind it is clear or is the 128th |
| LineEditor.ClearedLine | student-distrib/keyboard.c:222-246 | of every sequence of characters typed after Ctrl-L the shell gets exactly that sequence if and only if there is room, no NUL in it, and the old byte behind it is clear or is the 128th |
| LineEditor.ClearedOldLine | student-distrib/keyboard.c:222-246 | in terms of an old line from a fresh prompt: if and only if the new line reaches past the old one and past a character left behind it, or has 127 characters |
| LineEditor.EditedAfterClear | student-distrib/keyboard.c:160-261 | the same with backspaces, for the line the reference editor makes of the keys |
| LineEditor.BackspaceMeetsIntent | student-distrib/keyboard.c:160-198 | with a non-empty line, the code's step leaves index, buffer and cells of the line without its last character if and only if the line does not end in the stop column, for the prompt's own column if and only if its length is not a multiple of 80; otherwise it changes nothing |
| LineEditor.ShellGetsTheLine | student-distrib/terminal.c:169-183 | the command the shell reads is the line on the screen if and only if the line is shorter than 128, holds no NUL, and the byte behind it is clear or is where the newline goes |
| Terminals.StepIsPrivate | student-distrib/terminal.c:59-87 | every event changes only the displayed terminal, and that one as if it had a screen and keyboard of its own |
| Terminals.RunsArePrivate | student-distrib/terminal.c:59-87 | over every interleaving of output, keys and switches, each terminal's page, cursor, key buffer and index are those of a terminal never switched away |
| Terminals.LineAcrossSwitches | student-distrib/terminal.c:59-87 | a line typed at a terminal's prompt is the reference editor's, in that terminal's key buffer and on its screen, whatever happens on the others and however often they are switched to in between |
| Terminals.StopStays | student-distrib/keyboard.c:330-333 | over every run, only a program's output moves the column at which backspace stops |
| Terminals.PromptStays | student-distrib/terminal.c:213-215 | right after a program's output, with nothing typed, a backspace does nothing and stores nowhere |
| Terminals.TypedAtPrompt | student-distrib/terminal.c:207-216 | whatever printing keys and backspaces under 128 characters follow a program's output, every one is safe and the line is the reference editor's, with every backspace stopping in the prompt's column |
| Terminals.PromptedLineAcrossSwitches | student-distrib/terminal.c:59-87 | the same across switches, for as long as no program writes |
| Terminals.EchoedDisplay | student-distrib/keyboard.c:139-261 | without backspace, what a terminal displays is what printing everything since it was last cleared displays: output, echoed keys and the prompt of Ctrl-L, in order |
| Terminals.EveryTerminalShowsItsLog | student-distrib/terminal.c:59-87 | hence on every run each terminal shows the last 25 rows of its own log since it was last cleared |
| TerminalSystem.Console.Clear | student-distrib/lib.c:19-25 | every displayed cell becomes a default space; the rest of video memory is kept |
| TerminalSystem.Console.ScrollDown | student-distrib/lib.c:507-524 | every character moves up a row, the last row becomes NULs, attributes and saved pages are kept |
| TerminalSystem.Console.RowsUp | student-distrib/lib.c:513-516 | the first loop moves every character one row up and nothing else |
| TerminalSystem.Console.ClearLastRow | student-distrib/lib.c:518-521 | the second loop sets the characters of the last row to NUL and nothing else |
| TerminalSystem.Console.PutC | student-distrib/lib.c:170-190 | the displayed page and cursor become those of `Put`; saved pages are kept |
| TerminalSystem.Console.PutString | student-distrib/terminal.c:207-211 | the loop prints every byte in order |
| TerminalSystem.Console.BlankCell | student-distrib/keyboard.c:170 | one displayed character becomes a NUL; saved pages are kept |
| TerminalSystem.System.Print | student-distrib/lib.c:170-190 | kernel output changes the live terminal only, as the machine's step does |
| TerminalSystem.System.constructor | student-distrib/terminal.c:15-35 | three terminals with empty key buffers and the cursor at home |
| TerminalSystem.System.Write | student-distrib/terminal.c:197-218 | output goes to the live terminal and the stop column becomes the cursor's; an empty write does nothing |
| TerminalSystem.System.Type | student-distrib/keyboard.c:238-261 | a printing key on shared screen and buffer is the machine's step |
| TerminalSystem.System.Erase | student-distrib/keyboard.c:160-198 | so is backspace, branch by branch |
| TerminalSystem.System.Enter | student-distrib/keyboard.c:139-155 | so is Enter, scrolling on the last row, and the flag is raised |
| TerminalSystem.System.ClearScreen | student-distrib/keyboard.c:222-237 | so is Ctrl-L, with the prompt when a program has been run |
| TerminalSystem.System.ResetKeyboard | student-distrib/keyboard.c:344-352 | the key buffer, the index and the flag are cleared |
| TerminalSystem.System.ReadLine | student-distrib/terminal.c:137-185 | once Enter is pressed the caller gets the key buffer cut at its count, the last byte replaced by a newline, and the keyboard is reset; a zero count does nothing |
| TerminalSystem.System.SetKeys | student-distrib/keyboard.c:299-305 | the key buffer becomes the saved one |
| TerminalSystem.System.SaveCurrent | student-distrib/terminal.c:59-71 | the live terminal is stored under its number and the other two saved terminals are kept |
| TerminalSystem.System.Restore | student-distrib/terminal.c:66-87 | the saved terminal becomes the live one and all three saved copies are kept |
| TerminalSystem.System.Switch | student-distrib/terminal.c:59-87 | saving and restoring together are the machine's switch |
| Grep.ReportStep | syscalls/ece391grep.c:29-57 | the report on a text is the record of its first segment, if the pattern occurs in it, followed by the report on the rest |
| Grep.PrintsMatchingLines | syscalls/ece391grep.c:20-60 | the lines printed are exactly the lines that contain the pattern, each once and in file order, if and only if no such line is longer than 1024 bytes |
| Grep.MatchingMembers | syscalls/ece391grep.c:40-51 | a line is selected exactly when it is a line and contains the pattern |
| Grep.LongLine | syscalls/ece391grep.c:33-39 | a line that does not contain the pattern may be cut anywhere without changing what is selected |
| Grep.Strncmp | syscalls/ece391support.c:35-46 | zero exactly when the whole pattern stands in the buffer before the line's end |
| Grep.SearchLine | syscalls/ece391grep.c:41-51 | finds out whether the pattern occurs in the line, NULs or not; an empty pattern is found exactly where there is a NUL |
| Grep.FindLineEnd | syscalls/ece391grep.c:30-32 | stops at the first newline or at the end of what was read |
| Grep.ShiftDown | syscalls/ece391support.c:14-17 | the overlapping copy moves the text up to its first NUL to the front, terminated, and leaves everything behind it |
| Grep.PrintIfFound | syscalls/ece391grep.c:40-51 | a line with the pattern is printed once after the file's name, up to its first NUL; a line without is not |
| Grep.SearchBuffer | syscalls/ece391grep.c:28-57 | one pass over any filled buffer prints records; without NULs it prints its finished segments and keeps the unfinished one, so that output plus report on what is left stays the same |
| Grep.SearchDescriptor | syscalls/ece391grep.c:20-60 | whatever the file holds, the read loop ends and prints records under its name; for contents without NULs they are exactly the report on what the descriptor still held |
| Grep.Refill | syscalls/ece391grep.c:22-27 | a read behind the kept bytes appends the next ones and is short only at the end |
| Grep.DoOneFile | syscalls/ece391grep.c:9-66 | searches any file and gives its descriptor back, or prints that the open, or the read, failed |
| Grep.SearchEntry | syscalls/ece391grep.c:89-93 | names that start with a dot are skipped, every other file is searched under its name |
| Grep.SearchDirectory | syscalls/ece391grep.c:84-94 | the loop over the directory prints, in directory order up to an empty name, what searching each of its files prints |
| Grep.GrepMain | syscalls/ece391grep.c:68-97 | status and output of the whole program, from any descriptor table, for a missing argument, a directory that does not open, and a search: each NUL-free file contributes exactly its report, each other file records |
| Grep.OneResult | syscalls/ece391grep.c:68-97 | when no file holds a NUL, that leaves exactly one output and status |
| Grep.OutputByEntry | syscalls/ece391grep.c:84-94 | a result is one of the program's if and only if it is, in directory order, what searching each file prints whose name does not start with a dot, up to the first empty name (status 0) or the first file that does not open (its message, status 3) |
| Grep.EveryFileSearched | syscalls/ece391grep.c:84-94 | when the program ends with status 0, every file before the end whose name does not start with a dot has opened, and what its search printed stands in the output |
| Grep.ReportLines | syscalls/ece391grep.c:45-48 | cut at its newlines, the report on a file of short lines is one line per matching line, in file order, with the file's name and a colon in front |
| Messages.OpenMessagesRead | syscalls/ece391grep.c:17-81 | what the programs print when a directory or a file does not open or read, spelled out |
| Messages.OtherMessagesRead | syscalls/ece391cat.c:12-17 | what they print for a missing file or argument |
| CatLs.Cat | syscalls/ece391cat.c:6-31 | from any descriptor table: a file comes out whole, a directory as its names run together up to an empty one, the clock as nothing, all with status 0; the three error paths give their message and status |
| CatLs.CopyOut | syscalls/ece391cat.c:21-28 | the 1024-byte loop ends and writes exactly what the descriptor delivers to its end |
| CatLs.ToEndStep | student-distrib/filesys.c:146-262 | what a read delivers and what the descriptor then still delivers make up what it delivered before, and an empty read means the end |
| CatLs.ReadPiece | syscalls/ece391cat.c:21 | one read gives the next piece, and nothing only at the end |
| CatLs.Ls | syscalls/ece391ls.c:8-29 | from any descriptor table: each name on a line of its own in directory order, up to an empty name, or the message that the directory does not open |
| CatLs.ListDirectory | syscalls/ece391ls.c:18-26 | the loop prints exactly that listing |
| CatLs.ListingLines | syscalls/ece391ls.c:18-26 | cut at its newlines, the listing is the names in directory order up to the first empty one |
| CatLs.TogetherIsConcat | syscalls/ece391cat.c:21-28 | a directory's names run together are their concatenation up to the first empty one |
| Commands.Parse | student-distrib/syscall.c:160-201 | the four-state loop splits a command into its first word and the text after the spaces behind it, and fails exactly when the word is over 32 characters |
| Commands.CommandParts | student-distrib/syscall.c:173-197 | however a command is put together from spaces, a word, spaces and an argument, the parser gives back that word and that argument |
| Commands.GetArgs | student-distrib/syscall.c:540-549 | fails exactly when there is no argument; otherwise the buffer holds it, cut at the count or padded |
| Commands.EmulatedExecute | syscalls/ece391emulate.c:67-103 | a command over 1023 bytes is refused; any other becomes "./" with its first word, and its arguments; the pointer array holds them |
| Commands.Split | syscalls/ece391emulate.c:81-99 | the in-place splitter leaves a terminated copy of every word of the command where its pointer says |
| Commands.EmulatedArgsFit | syscalls/ece391emulate.c:72-100 | a command has at most one argument for every two of its bytes |
| Commands.ScanSpaces | syscalls/ece391emulate.c:89 | stops behind the leading spaces |
| Commands.ScanWord | syscalls/ece391emulate.c:95 | stops at the first space, newline or NUL |
| Commands.TerminateWord | syscalls/ece391emulate.c:95-97 | leaves the word terminated where it stands and the text behind it intact |
| Commands.NextArg | syscalls/ece391emulate.c:89-97 | one turn finds the next word and terminates it, or ends exactly when there are no more |
| Commands.SplitArgs | syscalls/ece391emulate.c:88-98 | the argument loop collects exactly the words of the text, none of them overwritten later |
| Commands.JoinArgs | syscalls/ece391emulate.c:131-157 | succeeds exactly when the joined arguments and a NUL fit, and then the buffer holds them |
| Commands.CopyText | syscalls/ece391support.c:14-17 | the text and its NUL are copied and nothing else changes |
| Commands.ArgsAreWords | syscalls/ece391emulate.c:88-98 | the arguments of a newline-free text are non-empty and free of spaces |
| Commands.JoinSingleSpaced | syscalls/ece391emulate.c:138-152 | joined words have single spaces and none at the ends |
| Commands.JoinArgsOfSingleSpaced | syscalls/ece391emulate.c:88-156 | splitting and joining a single-spaced text gives it back |
| Commands.ArgsOfJoin | syscalls/ece391emulate.c:88-152 | splitting what was joined gives the words back |
| Commands.ArgsAtNewline | syscalls/ece391emulate.c:90-97 | a newline behind a word separates it from what follows, and one where a word should begin ends the list |
| Commands.EmulatedArgsOfRest | syscalls/ece391emulate.c:81-98 | the emulation's arguments are the words of the kernel's argument text |
| Commands.SameText | syscalls/ece391emulate.c:81-156 | splitting and joining gives an argument text back if and only if it has single spaces only and none at its end |
| Commands.DeliverByKernel | student-distrib/syscall.c:160-549 | whether the program starts, what `getargs` returns and what the buffer holds are those of `KernelDelivery` |
| Commands.DeliverByEmulation | syscalls/ece391emulate.c:67-157 | the same of the emulation, through splitter and joiner |
| Commands.DeliverSame | syscalls/ece391emulate.c:67-157 | for every newline-free command that starts with its word, with an argument of at most 128 characters, and every count from 0 on, both deliver the same return value and string if and only if both refuse the command for its length, or neither does and the text is non-empty, single-spaced and shorter than the count, or there is neither text nor room |
| Blink.FirstAt | fish/blink.S:351-379 | the position from the front of the first blinker at a location |
| Blink.BlinkList.constructor | fish/fish.c:28 | a cleared pool is an empty list |
| Blink.BlinkList.Malloc | fish/fish.c:160-170 | the first node that is not in the list; none exactly when all 2000 are |
| Blink.BlinkList.Add | fish/blink.S:105-184 | fails exactly when the location is off the screen or all 2000 nodes are in use, changing nothing; otherwise the new blinker is in front, the others keep their order, and its cell shows the on character |
| Blink.BlinkList.Find | fish/blink.S:351-379 | the search ends at the front-most node whose location is the low 16 bits of the argument, or at null |
| Blink.BlinkList.Remove | fish/blink.S:187-237 | unlinks and clears exactly the most recently added blinker at the location in the low 16 bits of the argument, keeping the rest in order; fails exactly when there is none; the predecessor search ends |
| Blink.BlinkList.Tick | fish/blink.S:48-99 | every blinker is counted down once and those that fire swap their character, in list order |
| Blink.BlinkList.TickCell | fish/blink.S:64-86 | one node's countdown with its 16-bit wrap and signed comparison, and one cell |
| Blink.PushNode | fish/blink.S:159-162 | linking a free node in front keeps the list acyclic with exactly the nodes of nonzero location, one blinker longer |
| Blink.PopNode | fish/blink.S:206-222 | linking past a node and clearing it keeps that too, one blinker shorter |
| Blink.ListSize | fish/fish.c:160-170 | a list has at most 2000 nodes, and 2000 exactly when it holds the whole pool |
| Blink.AddThenRemove | fish/blink.S:105-237 | a removal undoes the latest addition at its location: the list is what it was |
| Blink.HighHalfIgnored | fish/blink.S:357 | the high half of a removal's argument makes no difference |
| BlinkLaws.BlinkMeetsIntent | fish/blink.S:60-169 | a blinker alone at its location shows, over all events elsewhere, exactly the period its lengths say if and only if both lengths are 1 to 32768 |
| BlinkLaws.WrongTick | fish/blink.S:64-86 | otherwise some tick up to the on length plus one is in the wrong phase |
| BlinkLaws.TickCounts | fish/blink.S:64-86 | one tick takes one from the ticks left, and with one left starts the other phase |
| BlinkLaws.Phase | fish/blink.S:64-86 | `n` ticks after it was added a blinker is on exactly when `n` modulo its period falls in the on phase |
| BlinkLaws.AtWithout | fish/blink.S:187-222 | a removal takes the most recent blinker of its own location and none elsewhere |
| BlinkLaws.AtTick | fish/blink.S:60-90 | a tick treats each location as if it were alone |
| BlinkLaws.CellAtTick | fish/blink.S:68-82 | a cell changes at a tick only through the one blinker at its location |
| BlinkLaws.ShowingRun | fish/blink.S:48-237 | over any adds, removes and ticks elsewhere, exactly that blinker stays at its location and its cell shows its state |
| BlinkLaws.BlinkPeriod | fish/blink.S:60-169 | for every blinker alone at its location and every run with `n` ticks since its add, its cell shows the on character exactly when `n` modulo the period is below the on length, whatever else is in the list |
| Numbers.NumeralValue | student-distrib/lib.c:198-228 | reading a numeral back gives the number; it has no leading zero unless it is zero |
| Numbers.NumeralUnique | student-distrib/lib.c:198-228 | no other digit string without leading zeros denotes that number |
| Numbers.NumeralLength | student-distrib/lib.c:80-113 | a number below `radix^n` has at most `n` digits |
| Numbers.Strlen | student-distrib/lib.c:253-258 | the distance to the first NUL |
| Numbers.Strrev | student-distrib/lib.c:234-247 | the text is reversed in place and nothing else changes |
| Numbers.WriteDigits | student-distrib/lib.c:216-221 | the divide loop leaves the numeral lowest digit first |
| Numbers.Itoa | student-distrib/lib.c:198-228 | for every value and radix 2..36 the buffer holds the numeral and a NUL, and nothing else changes |
| Numbers.PrintUnsigned | student-distrib/lib.c:78-107 | `%u` and `%x` print a digit string that denotes the value, without leading zeros |
| Numbers.PrintSigned | student-distrib/lib.c:110-123 | `%d` prints the numeral of the magnitude after a minus sign if negative |
| Numbers.PrintHexAligned | student-distrib/lib.c:84-94 | `%#x` prints exactly eight hexadecimal digits that denote the value |
| Numbers.PutText | student-distrib/lib.c:157-164 | prints the text up to its NUL |
| Memory.Memset | student-distrib/lib.c:266-300 | for every alignment and length the region holds the low byte of the argument and nothing else changes |
| Memory.Memcpy | student-distrib/lib.c:349-386 | for every alignment and length the destination equals the original source and nothing else changes |
| Memory.CopiedTwice | student-distrib/lib.c:349-386 | a copy done in two stretches is the copy of the whole, when copying forwards is safe |
| Memory.CopyHead | student-distrib/lib.c:351-361 | the head phase copies bytes up to alignment or the end |
| Memory.CopyWords | student-distrib/lib.c:362-369 | the word phase copies four bytes at a time as the bytewise copy would |
| Memory.CopyBytes | student-distrib/lib.c:370-379 | the tail phase copies the rest |
| Memory.Memmove | student-distrib/lib.c:395-413 | for every overlap the destination equals the original source and nothing else changes |
| Differences.LongWordLosesPid | student-distrib/syscall.c:173-179 | a word of 33 letters typed at the first shell fails and loses pid 1 |
| Differences.FiveLongWords | student-distrib/syscall.c:132-179 | after five of them the first shell is still there, and on no run can any process start a program again |
| Differences.GrandchildOfShell | student-distrib/syscall.c:270-275 | a program started by the shell starts another, whose parent is then the shell |
| Differences.NothingLoaded | student-distrib/syscall.c:215-307 | a well-formed image with a program of 65536 bytes, which starts with nothing loaded |
| Differences.EmptyFileStarts | student-distrib/syscall.c:215-219 | the command "." names an empty file and starts when the stack still holds a magic number |
| Differences.ClockOnFullTable | student-distrib/syscall.c:448-461 | with 2..7 all open and zeros behind the table, opening "rtc" gives 8 |
| Differences.LongLineSplit | syscalls/ece391grep.c:33-57 | one matching line of 1025 characters is reported as two |
| Differences.BackspaceStops | student-distrib/keyboard.c:166-182 | after 80 characters at the first prompt a backspace does nothing |
| Differences.CharacterLeftBehind | student-distrib/keyboard.c:182-196 | after 73 characters and a backspace the index is 72 and the shell gets 73 |
| Differences.OldLineShowsThrough | student-distrib/keyboard.c:222-237 | "abc", Ctrl-L, "ls" gives the shell "lsc" |
| Differences.TabEndsTheCommand | student-distrib/keyboard.c:54-63 | "a", Tab, "b" gives the shell "a" |
| Differences.BackspaceKillsKeyboard | student-distrib/keyboard.c:166-175 | Ctrl-L under a program's shorter prompt and a backspace set the index to 255 |
| Differences.LongBlinkIsShort | fish/blink.S:64-66 | a blinker that should stay on for 40000 ticks is off after one |
| Differences.NoBlinkIsSome | fish/blink.S:164-169 | a blinker that should never be on starts on |
| Differences.NoArgument | syscalls/ece391emulate.c:153-156 | "cat" alone makes `getargs` fail in the kernel and succeed in the emulation |
| Differences.TwoSpaces | syscalls/ece391emulate.c:89 | "a b  c" keeps both spaces in the kernel and one in the emulation |

## Left out

- Descriptors.Process.Read: the typed line is an input (`TerminalSystem.System.ReadLine` says what it is), and the caller's buffer must have room for the bytes each kind of read touches: 33 for a directory, and the NUL behind a typed line.
- Descriptors.Process.Open: what else shares the memory behind a full table (it is the stored argument) is not followed.
- Loader.Prepare: an argument over 128 characters is excluded, for which the code has no room. The copy is to disjoint memory, and the memory behind a short file is the stack as the call finds it.
- Paging.PageTables.MapToUser: `vidmap`'s own range check is left out.
- LineEditor.EditorHolds: excluded are a backspace with 128 characters typed, because the code then stores behind the key buffer, and one that erases with nothing typed, which `LineEditor.IndexWraps` describes. Keys arrive decoded, and no layout types a line break.
- TerminalSystem.System.Erase: a backspace whose stores leave the key buffer (`LineEditor.StoresInside`) is excluded, here and from the runs of `Terminals`.
- Grep.DoOneFile: a stack byte behind the buffer that happens to hold a newline is excluded, and so are names that open as directories, other than the dot names the program skips: reading one would clear 33 bytes however few the buffer has left. The contents of the records printed for a file with NULs are not specified.
- CatLs.Ls: the entry named "." is taken to be a directory, as in every image.
- Commands.DeliverSame: commands with a newline or leading spaces are excluded; the emulation treats those differently from the start. So are arguments over 128 characters, which overrun the kernel's array (student-distrib/syscall.c:161, :188), and negative counts, which the kernel's copy takes for huge ones.
- Commands.Parse: arguments over 128 characters overrun the code's array and are excluded.
- Commands.GetArgs: negative counts are excluded.
- Processes.ProcessTable.Switch: the process found on a terminal that has none yet is an input, since the code reads a slot before the array there; the value only feeds the page and stack that the first shell replaces.
- CallStacks.StepKeepsCalls: the shell file is taken to load (`Loader.ShellLoads` says when it does), and only shells call execute, as in the shipped programs.
- TerminalSystem.System.Switch: the key buffer is restored after the page is saved, not before; no step reads one between the two.
- Terminals.RunsArePrivate: the shared stop column is an input of a terminal's backspace; the shared Enter flag only decides when a read is ready.
- Terminals.EveryTerminalShowsItsLog: backspace on the terminal itself is excluded; `Terminals.LineAcrossSwitches` covers it for a line.
- TerminalSystem.System.ReadLine: the busy wait for Enter is a precondition.
- Commands.JoinArgs: the byte behind the buffer must exist, since a failing call may write a NUL there.
- Blink.BlinkList.Add: a location of zero is excluded, since such a node looks free.
- Memory.Memcpy: regions where the destination starts inside the source are excluded, since the copy is forwards; address wrap-around is excluded in all three memory routines.
- Numbers.PrintSigned: the negation of the smallest 32-bit number is taken as 2147483648, as in two's complement.
- Descriptor cleanup inside `halt`: by then the process is off its terminal, so `close` acts on another process's table.
- Register saves, `iret`, stack switching and TLB flushes: a context switch is the pid it selects.
- The interrupt controller, the clock and timer ports, `outb` and `inb`, cursor port updates, descriptor tables and multiboot parsing.
- `scheduling` and the timer: no tick ever runs in this kernel.
- Scancode tables and the shift, caps, alt and ctrl flags: keys arrive decoded.
- `mp1_ioctl_sync` and `mp1_ioctl_find`.
- `fork`, `execv` and `mmap` in the emulation: only its splitter and joiner are modelled.
- The demonstration programs and the kernel's tests: they would only add easy members.
