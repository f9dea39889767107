# HydraOS kernel model

A Dafny model of five stateful parts of the HydraOS kernel, with proofs of what they promise over
whole runs. The imperative parts are classes with the fields of the source; each method is proved
against a function on the abstract state, and the theorems are about those functions.

| part | class | functions on the state | theorems |
|---|---|---|---|
| file system (`src/filesystem.cpp`) | `FileSystem.dfy` | `FsCodec.dfy`, `FsModel.dfy` | `FsDisk`, `FsInvariant`, `FsOps`, `FsWrite`, `FsLayout`, `FsMount`, `FsCrash`, `FsRewrite`, `FsFormat`, `FsRuns`, `FsHandles`, `FsExample` |
| heap (`src/memory.cpp`) | `Heap.dfy` | `HeapModel.dfy`, `HeapMemory.dfy` | `HeapTheorems` |
| text screen (`src/drivers/vga.cpp`) | `Screen.dfy` | `Terminal.dfy` | `Terminal`, `TerminalCells` |
| scheduler (`src/multitasking.cpp`) | `Multitasking.dfy` | `RoundRobin.dfy` | `RoundRobin` |
| segment descriptors (`src/gdt.cpp`) | `SegmentDescriptor.dfy` | same file | same file |

`Bytes.dfy` holds the unsigned types and the little-endian byte order of the 32-bit target.

**File system.** The disk is an array of 512-byte sectors with a log of every sector write. An
operation is an `Effect`: new superblock and inode table in memory, the sector writes in the order
in which they are issued, and the returned value. The methods of `FileSystem` produce exactly these
effects with the byte loops of the source. On top of that:

- `Consistent` is the invariant (names, placement below the high-water mark, disjoint extents,
  memory equal to disk), and `Files` is the map from names to contents that it stands for.
- Every legal run from `Format` on, with `Mount`, `Unmount` and further formats anywhere and with
  crashes in between, replies as a plain map does (`FormattedRunRefines`). A crash stops a call after
  any number of sector writes and loses the memory. After the next mount the file system is
  consistent, and every call but an overwrite has happened entirely or not at all (`CrashAtomic`,
  `FirstWriteAtomic`). A crash in an overwrite is confined to the overwritten file, and its contents
  are known exactly: leading sectors of the data over the old bytes at the old size, or the data
  (`CrashConfined`). A format may stop wherever it leaves a consistent file system; where that is,
  and which files are left, is exact as well (`FormatCrashExactly`).
- Runs may also keep the inode index that `CreateFile` or `OpenFile` returned and use it later. What
  such a handle reaches follows from the log of calls and replies alone (`HandleTraced`,
  `ReadIsTraced`). A handle of a deleted file reaches nothing until a creation takes its slot, which
  the next one does exactly when no lower slot is free (`StaleAfterCreate`).
- Three promises fail in the code, and the exact conditions are proved.
  - Rewriting a file may run into a later file, because `WriteFile` writes at `startSector + i` and
    ignores the sectors it allocates. `RewriteSafeIsExact` says when; `SameSectorsSafe` is a simple
    sufficient rule, and `RewriteExample` gives a state, reached by calls from `Format`, in which it
    happens.
  - Overwriting in place is crash-atomic only for an empty file, empty data, or an unchanged size of
    at most one sector (`OverwriteAtomicExactly`).
  - `Format` resets the superblock first and then clears the table sector by sector. It is
    crash-atomic exactly when no file has sectors and all files share one table sector
    (`FormatAtomicExactly`). Otherwise its first write leaves a disk that mounts with all old files
    above the high-water mark (`FormatStrandsFiles`), or a later one splits the files
    (`FormatSplits`).
- `FILESYSTEM_USAGE.md:118` allows names of 32 characters. The code stores at most 31 and cuts longer
  ones; `CreateThenOpen` and `CreateEffect` say exactly what this breaks, and `LongNameExample`
  reaches two files of one name. The same guide explains a failed creation by a full disk (line 133);
  the code never looks at the disk size (`CreateVerdict`).
- The bytes on the disk are stated field by field, with literal offsets and without the encoder
  (`FsLayout`, `FsMount`): what Format, CreateFile, DeleteFile, WriteFile and Unmount leave in which
  bytes, and that no other byte changes (`CreateFrame`, `DeleteFrame`, `WriteFrame`). Mount succeeds
  exactly when sector 1 begins with the magic number (`MountVerdict`); a disk without it stays
  unusable and unchanged over every run of calls without a format (`UnformattedRun`).
- Data sectors stay below the high-water mark, and memory and disk agree, without any restriction on
  names and rewrites (`StepDurable`, `RunDurable`).

**Heap.** Memory is an array of bytes indexed by address. A chunk header is 16 bytes of it (two
pointers, a flag, a size), read and written as bytes. The ghost list of chunks is tied to the
linked headers in both directions. The central theorem is that a well-formed list is determined by
the heap bounds and the live blocks (`Canonical`); order-independent freeing, exact undo of an
allocation and complete recovery follow.

**Screen.** The specification is a tape of cells with one position number: no columns, no wrapping,
no scrolling. The 80x25 buffer and the two cursor coordinates are proved to be the last 2000 cells
and the position in them after every operation, for all 256 characters. The cells themselves are
stated bit by bit (`TerminalCells`): text shows in the colours that were set, an erased window shows
only what was printed since (`ErasedText`), and two screens with any histories look alike after an
erasure under equal colours (`EraseForgets`).

**Scheduler.** The returned state of a task is the one passed in when it was last preempted, stated
on a log of calls only, and a selected task returns after exactly as many calls as there are tasks
when the index wraps.

**Conditions on callers**, as the code relies on them: the heap does not start at address 0 and ends
within 32-bit memory; `free` gets a pointer that is handed out; the disk is large enough for a write
and has at most 2^28 sectors; sizes stay below 2^31; strings end with NUL (they are given without it).

## Model

| member | source | states |
|---|---|---|
| FsCodec.SuperblockRoundTrip | src/filesystem.cpp:37-68 | loading a saved superblock sector gives back every field |
| FsCodec.SlotRoundTrip | src/filesystem.cpp:70-122 | inode i of a saved inode sector is read back from its 64-byte slot unchanged |
| FsCodec.OtherSlots | src/filesystem.cpp:95-122 | changing one inode changes no other sector of the saved table |
| FsCodec.TableRoundTrip | src/filesystem.cpp:70-122 | loading the eight saved sectors gives back all 64 inodes |
| FsLayout.SuperblockLayout | include/filesystem.h:47-54 | the saved sector holds the four fields as little-endian words at bytes 0, 4, 8 and 12, the label in 16 to 47, and zeros |
| FsLayout.LoadedSuperblock | src/filesystem.cpp:37-50 | loading reads these bytes of sector 1, whatever they are |
| FsLayout.InodeLayout | src/filesystem.cpp:95-122 | inode i is saved in sector i/8 of the table from byte 64*(i%8) on: name, then five words at 32, 36, 40, 44 and 48, then zeros |
| FsLayout.LoadedInode | src/filesystem.cpp:70-93 | loading inode i reads these bytes of sector 2+i/8, whatever they are |
| FsLayout.CreateBytes | src/filesystem.cpp:210-227 | on the disk a created file has its name cut to 31 characters, a NUL, type 1 and four zero words, and the count is one higher modulo 2^32 |
| FsLayout.CreateFrame | src/filesystem.cpp:210-227 | CreateFile changes no other byte of the disk, not even behind the NUL |
| FsLayout.DeleteBytes | src/filesystem.cpp:271-277 | on the disk a deleted file has type and size 0, and the count is one lower modulo 2^32 |
| FsLayout.DeleteFrame | src/filesystem.cpp:271-277 | DeleteFile changes no other byte of the disk |
| FsLayout.WriteBytes | src/filesystem.cpp:333-374 | on the disk a written file has the new size and its first sector, and the used sectors grow by all but the first data sector, plus one for a new file, also in a rewrite |
| FsLayout.WrittenByte | src/filesystem.cpp:343-366 | byte q of the data is byte q%512 of the q/512-th sector of the file, and the last sector is padded with zeros |
| FsLayout.WriteFrame | src/filesystem.cpp:333-374 | WriteFile changes no other byte of the disk |
| FsMount.FormatBytes | src/filesystem.cpp:142-171 | a formatted disk holds the magic number, 1000, 0, 0, the label cut to 31 characters with a NUL, and 64 slots with no name, size, sector and type; data sectors stay |
| FsMount.FormatThenMount | src/filesystem.cpp:142-184 | the label is stored, and label and fields come back when the disk is mounted on any memory |
| FsMount.UnmountSaves | src/filesystem.cpp:186-194 | Unmount writes superblock and table as they are in memory to the sectors 1 to 9 in order, and no other sector |
| FsMount.MountVerdict | src/filesystem.cpp:173-184 | on any disk Mount succeeds exactly when sector 1 begins with 52 44 59 48 (hexadecimal), and then reads all fields in place; otherwise only the superblock in memory changes |
| FsMount.UnmountedRefuses | src/filesystem.cpp:173-378 | unmounted, every call but a successful Mount is refused and changes at most the superblock in memory |
| FsMount.UnformattedRun | src/filesystem.cpp:173-378 | without the magic number no run of calls mounts, uses or changes the disk |
| FsMount.BlankDiskRefused | src/filesystem.cpp:173-184 | an all-zero disk is refused after any run of calls, and no file is found |
| FsDisk.ApplyData | src/filesystem.cpp:346-366 | the loop of WriteFile leaves the padded chunks side by side and the last bump in the superblock sector, and nothing else |
| FsInvariant.MatchesIsEquality | src/filesystem.cpp:241-255 | the character loop of OpenFile decides equality of C strings; 32 characters or more never match |
| FsInvariant.FindIsLookup | src/filesystem.cpp:232-260 | OpenFile's search finds a name exactly when it is in the map of files, and the inode holding its contents |
| FsInvariant.ViewUpdate | include/filesystem.h:36-44 | replacing one inode, with other extents untouched, changes one entry of the map of files |
| FsInvariant.ViewSize | src/filesystem.cpp:124-132 | the map has as many files as there are non-empty inodes |
| FsOps.CreateVerdict | src/filesystem.cpp:196-208 | CreateFile succeeds exactly when mounted, the name is not found, and one of 64 inodes is free; otherwise nothing happens |
| FsOps.CreateEffect | src/filesystem.cpp:210-230 | a created file is empty and nothing else changes; the invariant survives exactly when the name cut to 31 characters is not taken |
| FsOps.CreateThenOpen | src/filesystem.cpp:213-216 | a created file is found under its name exactly when the name has at most 31 characters |
| FsOps.DeleteCorrect | src/filesystem.cpp:262-280 | DeleteFile removes exactly the name, keeps the invariant, and reports whether the name was there |
| FsOps.CreateCounts | src/filesystem.cpp:224-227 | CreateFile keeps the inode count equal to the number of non-empty inodes |
| FsOps.DeleteCounts | src/filesystem.cpp:271-277 | DeleteFile keeps the inode count equal to the number of non-empty inodes |
| FsWrite.FirstWriteExtent | src/filesystem.cpp:333-366 | a first write owns exactly the contiguous sectors from the old to the new high-water mark |
| FsWrite.FirstWriteSafe | src/filesystem.cpp:333-337 | a first write never touches a sector of another file |
| FsWrite.HighWaterMark | src/filesystem.cpp:134-140 | WriteFile, whatever it overwrites, writes metadata or data sectors below the new mark, and keeps all files below it |
| FsWrite.WrittenContent | src/filesystem.cpp:339-373 | afterwards the file holds exactly the data, across sector boundaries and with a partial last sector |
| FsWrite.WriteThenRead | src/filesystem.cpp:282-378 | reading m bytes after writing n gives min(n, m) and that prefix of the data |
| FsWrite.WriteCorrect | src/filesystem.cpp:324-378 | a safe write replaces the contents of one file, keeps the invariant and changes nothing else; an invalid handle gives -1 |
| FsWrite.RewriteSafeIsExact | src/filesystem.cpp:360-364 | no data of a size can damage another file if and only if no other file owns a sector of the written range |
| FsWrite.SameSectorsSafe | src/filesystem.cpp:360-364 | a rewrite that needs no more sectors than the file has is safe |
| FsWrite.GrowingIsUnsafe | src/filesystem.cpp:360-364 | growing a file up to the first sector of a later one is outside the safe range |
| FsWrite.MountReproduces | src/filesystem.cpp:173-184 | mounting the disk on any memory gives back the superblock and inode table that were in memory |
| FsWrite.UnmountKeeps | src/filesystem.cpp:186-194 | unmounting changes no sector, since everything is written through |
| FsWrite.FormatCorrect | src/filesystem.cpp:142-171 | formatting any disk gives a consistent, empty file system with count 0, on the disk as in memory |
| FsExample.RewriteExample | src/filesystem.cpp:360-364 | calls from Format lead to two one-byte files on which a 513-byte rewrite of the first damages the second |
| FsExample.LongNameTwice | src/filesystem.cpp:196-230 | creating one name of 32 characters or more twice succeeds both times and leaves two files with equal stored names |
| FsExample.LongNameExample | src/filesystem.cpp:196-230 | mounting a freshly formatted disk and creating such a name twice reaches that state |
| FsCrash.RecoversAs | src/filesystem.cpp:173-184 | a disk with the old table and owned sectors recovers all files even if the superblock is ahead or its count lags |
| FsCrash.TablePrefix | src/filesystem.cpp:95-122 | a table saved half-way is the old or the new table, since one sector differs |
| FsCrash.CreateAtomic | src/filesystem.cpp:196-230 | after any prefix of its writes, mounting shows all files as before or as after CreateFile, and a consistent file system |
| FsCrash.DeleteAtomic | src/filesystem.cpp:262-280 | the same for DeleteFile |
| FsCrash.CountLags | src/filesystem.cpp:226-227 | during CreateFile and DeleteFile the superblock on the disk is the old one up to the last of nine writes |
| FsCrash.FirstWriteAtomic | src/filesystem.cpp:324-378 | the same for the first WriteFile of a file |
| FsCrash.CrashConfined | src/filesystem.cpp:324-378 | after any prefix of the writes of a WriteFile that spares the other files, mounting shows a consistent file system in which only the written file differs, with contents given for each crash point |
| FsCrash.CrashContentShape | src/filesystem.cpp:346-373 | these contents are the data, or the old bytes at the old size with some leading 512-byte sectors of the padded data over them |
| FsRewrite.TornOverwrite | src/filesystem.cpp:346-373 | every other overwrite has data and a crash point that leave neither the old nor the new files |
| FsRewrite.OverwriteAtomicExactly | src/filesystem.cpp:324-378 | a safe WriteFile is crash-atomic for all data of a size exactly when the file is empty, the data is empty, or the size is unchanged and at most 512 |
| FsFormat.FormatStrandsFiles | src/filesystem.cpp:142-171 | after the first write of Format the disk mounts with the old table and no sector in use; with a written file no consistent state remains, and the next first write overwrites sector 10 |
| FsFormat.FormatSplits | src/filesystem.cpp:142-171 | a crash between the table sectors of two files leaves one and loses the other |
| FsFormat.FormatCrashExactly | src/filesystem.cpp:142-171 | after m table sectors: the files of the remaining inodes, if none of them has sectors, and otherwise nothing consistent |
| FsFormat.FormatAtomicExactly | src/filesystem.cpp:142-171 | Format is crash-atomic at all its writes exactly when no file has sectors and all files share one table sector |
| FsRuns.StepDurable | src/filesystem.cpp:134-378 | with any names and rewrites, every call keeps memory and disk equal and writes within metadata and used sectors |
| FsRuns.RunDurable | src/filesystem.cpp:173-378 | after any run the disk is the start plus the writes of the run, each of them metadata or a data sector below the final mark, and mounting reproduces memory |
| FsRuns.StepRefines | src/filesystem.cpp:173-378 | every legal call keeps the invariant and replies and acts as the map of files does |
| FsRuns.CrashAtomic | src/filesystem.cpp:173-378 | every legal call other than a write to an existing file is all or nothing at every crash point |
| FsRuns.CrashRefines | src/filesystem.cpp:173-378 | every legal call, cut off at any write, leaves a consistent file system with the old files, the new ones, or, in an overwrite, only that file partly written |
| FsRuns.EventRefines | src/filesystem.cpp:142-378 | calls, formats and crashes of both keep the file system consistent and are steps of the abstract machine |
| FsRuns.RunRefines | src/filesystem.cpp:173-378 | every run of calls, formats and crashes from a consistent state is explained by the map of files |
| FsRuns.FormattedRunRefines | src/filesystem.cpp:142-378 | the same from Format on, starting with the empty map |
| FsRuns.RunCounts | src/filesystem.cpp:196-280 | over runs of calls and formats without crashes the superblock's count is the number of files |
| FsHandles.StepRefines | src/filesystem.cpp:173-378 | every legal call with any inode index replies and acts as the row of 64 slots does |
| FsHandles.HandleTraced | src/filesystem.cpp:173-378 | after any legal run, slot i holds the file of the last creation that returned i, until its name is deleted, with the data last written through i |
| FsHandles.ReadIsTraced | src/filesystem.cpp:282-322 | from Format on, a read through any index is answered from the log of calls and replies |
| FsHandles.StaleAfterDelete | src/filesystem.cpp:262-332 | the index of a deleted file reads and writes nothing |
| FsHandles.StaleAfterCreate | src/filesystem.cpp:196-230 | the next creation takes the index of a deleted file exactly when all lower ones are used; otherwise it still reaches nothing |
| FsHandles.StaleWrite | src/filesystem.cpp:196-378 | when the index was taken, a write through it changes the new file and no other |
| Files.FileSystem.LoadSuperblock | src/filesystem.cpp:37-50 | memory gets the superblock decoded from sector 1 |
| Files.FileSystem.SaveSuperblock | src/filesystem.cpp:52-68 | one write of the encoded, zero-padded superblock to sector 1 |
| Files.FileSystem.LoadInodeTable | src/filesystem.cpp:70-93 | memory gets the table decoded from sectors 2 to 9 |
| Files.FileSystem.SaveInodeTable | src/filesystem.cpp:95-122 | eight writes, in order, of the packed inode sectors |
| Files.FileSystem.FindFreeInode | src/filesystem.cpp:124-132 | the lowest empty inode, or -1 if all 64 are used |
| Files.FileSystem.AllocateSector | src/filesystem.cpp:134-140 | returns the sector at the mark, raises the mark and writes the superblock |
| Files.FileSystem.Format | src/filesystem.cpp:142-171 | state and writes of the Format effect |
| Files.FileSystem.Mount | src/filesystem.cpp:173-184 | state of the Mount effect; a wrong magic number fails after replacing the superblock |
| Files.FileSystem.Unmount | src/filesystem.cpp:186-194 | state and writes of the Unmount effect |
| Files.FileSystem.CreateFile | src/filesystem.cpp:196-230 | state, writes and result of the CreateFile effect |
| Files.FileSystem.SameName | src/filesystem.cpp:241-252 | the comparison loop decides whether stored name and C string match |
| Files.FileSystem.OpenFile | src/filesystem.cpp:232-260 | index of the first live inode with that name, or -1 |
| Files.FileSystem.DeleteFile | src/filesystem.cpp:262-280 | state, writes and result of the DeleteFile effect |
| Files.FileSystem.ReadFile | src/filesystem.cpp:282-322 | count and prefix of the contents in the buffer, the rest of the buffer and all state unchanged |
| Files.FileSystem.WriteFile | src/filesystem.cpp:324-378 | state, writes in order, and result of the WriteFile effect |
| HeapModel.FirstFit | src/memory.cpp:37-41 | index of the first free chunk strictly larger than the request |
| HeapModel.LiveDisjoint | src/memory.cpp:8-88 | live blocks lie inside the heap and do not overlap |
| HeapModel.MallocWellFormed | src/memory.cpp:33-63 | malloc keeps the heap exactly tiled and without neighbouring free chunks |
| HeapModel.FreeWellFormed | src/memory.cpp:65-88 | free keeps the heap exactly tiled and without neighbouring free chunks |
| HeapModel.FreeLive | src/memory.cpp:65-88 | free removes exactly the freed block from the live ones |
| HeapTheorems.Canonical | src/memory.cpp:65-88 | two well-formed lists over one heap with the same live blocks are equal |
| HeapTheorems.MallocIsFirstFit | src/memory.cpp:33-63 | null exactly when no free chunk is larger than n; otherwise the lowest such chunk, a block of n bytes or of the whole chunk if at most 16 bytes would be left, 16 bytes behind its header, and one more live block |
| HeapTheorems.MallocThenFree | src/memory.cpp:33-88 | freeing a block just allocated restores the list, cut or not |
| HeapTheorems.RunWellFormed | src/memory.cpp:8-88 | every legal run keeps the heap tiled and coalesced |
| HeapTheorems.HistoryIndependent | src/memory.cpp:8-88 | two runs that end with the same live blocks end with the same list |
| HeapTheorems.FullRecovery | src/memory.cpp:65-88 | a run that leaves nothing live ends with the single original free chunk |
| HeapTheorems.FreeOrderIrrelevant | src/memory.cpp:65-88 | freeing a set of live blocks in any two orders ends in the same list |
| HeapTheorems.FragmentationBound | src/memory.cpp:71-87 | free chunks exceed live chunks by at most one |
| HeapMemory.MallocNoWrap | src/memory.cpp:46-51 | no unsigned expression of malloc wraps |
| HeapMemory.HeaderBytesAre | include/memory.h:8-14 | the 16 header bytes: address of the chunk just behind or 0, address of the one before or 0, flag at 8, size at 12 |
| HeapMemory.PayloadKept | src/memory.cpp:46-88 | writing only headers of the old or new list keeps every payload byte that is live in both, and all bytes outside the heap |
| Heap.MemoryManager.constructor | src/memory.cpp:8-25 | one free chunk over the whole heap, or none when a header does not fit |
| Heap.MemoryManager.Search | src/memory.cpp:35-44 | the pointer walk finds the first fit, or null |
| Heap.MemoryManager.Malloc | src/memory.cpp:33-63 | memory stays a doubly linked list of the chunks given by HeapModel.Malloc; live payloads and bytes outside are unchanged |
| Heap.MemoryManager.Free | src/memory.cpp:65-88 | memory stays a doubly linked list of the chunks given by HeapModel.Free; live payloads and bytes outside are unchanged |
| Terminal.StepValid | src/drivers/vga.cpp:205-272 | the position stays in the window, the window moves by at most one row, and what left it is frozen |
| Terminal.RunValid | src/drivers/vga.cpp:171-280 | the same over whole runs |
| Terminal.PlainText | src/drivers/vga.cpp:254-280 | text without control characters is laid out cell after cell from the cursor on, everything else stays, new rows are blank |
| Terminal.LineHeight | src/drivers/vga.cpp:233-263 | a line of n characters from a row start takes n/80 + 1 rows |
| Terminal.ControlMoves | src/drivers/vga.cpp:233-244 | return, tab and newline move to the first column, the next tab stop and the next row, and change no cell |
| Terminal.BackspaceUndoes | src/drivers/vga.cpp:246-258 | a backspace takes back a character exactly when it was not in the last column |
| TerminalCells.InitialScreen | src/drivers/vga.cpp:155-165 | 2000 cells 0x0F20 and the cursor at the first |
| TerminalCells.NewCellsBlank | src/drivers/vga.cpp:205-225 | only SetColor changes colours, and cells of new rows are blanks in the current ones |
| TerminalCells.CharShown | src/drivers/vga.cpp:227-258 | a character goes to the cursor's cell in the current colours; from 128 on its sign bits turn both colours into 15; no other cell changes |
| TerminalCells.BackspaceBlanks | src/drivers/vga.cpp:246-252 | a backspace blanks the cell to the left in the current colours, or does nothing in the first column |
| TerminalCells.CursorMoves | src/drivers/vga.cpp:325-333 | the cursor goes to row y and column x of the window, or stays |
| TerminalCells.EraseBlanks | src/drivers/vga.cpp:171-184 | every cell of the window becomes a blank in the current colours, and the cursor goes to the first |
| TerminalCells.ColouredText | src/drivers/vga.cpp:186-280 | after SetColor, 7-bit text has its characters in the low bytes, and exactly these colours above, like the blanks of new rows |
| TerminalCells.ErasedText | src/drivers/vga.cpp:171-280 | after any run, Clear and Print show the text on a blank window and nothing else |
| TerminalCells.EraseForgets | src/drivers/vga.cpp:171-333 | after Clear, screens with equal colours and any histories stay equal under the same later events |
| Screen.TextMode.constructor | src/drivers/vga.cpp:155-165 | a blank white-on-black screen |
| Screen.TextMode.Clear | src/drivers/vga.cpp:171-184 | all 2000 cells of the video memory are blanks in the current colours, the cursor is at row and column 0, and the tape follows |
| Screen.TextMode.SetColor | src/drivers/vga.cpp:186-190 | only the colours of later cells change |
| Screen.TextMode.Scroll | src/drivers/vga.cpp:205-225 | rows move up by one, the last one is blank |
| Screen.TextMode.PutChar | src/drivers/vga.cpp:227-272 | buffer and cursor are again the last 2000 cells and the position of the tape after the character; one Scroll is enough |
| Screen.TextMode.Print | src/drivers/vga.cpp:274-280 | the same for a C string |
| Screen.TextMode.SetCursorPosition | src/drivers/vga.cpp:325-333 | moves the position within the window, or ignores coordinates outside the screen |
| RoundRobin.CallsAccount | src/multitasking.cpp:47-63 | in any run the number of calls is the distance moved plus the tasks counted at each wrap |
| RoundRobin.TasksKept | src/multitasking.cpp:38-45 | over any run the tasks stay in the order of joining, and the first 256 are kept |
| RoundRobin.RoundLength | src/multitasking.cpp:47-63 | a selected task is selected again after exactly as many calls as there are tasks when the index wraps, at most 256 |
| RoundRobin.NoStarvation | src/multitasking.cpp:38-63 | every added task is selected within 256 calls, whatever is added meanwhile |
| RoundRobin.ContextPreserved | src/multitasking.cpp:38-63 | the state returned for a task is the one passed in when it was last preempted, or its initial state |
| Multitasking.Task.constructor | src/multitasking.cpp:6-22 | initial registers: zero, entry point, code segment, interrupts enabled |
| Multitasking.TaskManager.constructor | src/multitasking.cpp:28-32 | no tasks and no current task |
| Multitasking.TaskManager.AddTask | src/multitasking.cpp:38-45 | appends the task unless there are 256 |
| Multitasking.TaskManager.Schedule | src/multitasking.cpp:47-63 | state and result of RoundRobin.Tick, and no other change |
| SegmentDescriptors.SegmentDescriptor.constructor | src/gdt.cpp:33-62 | the eight bytes encode base, limit and access byte in the layout of section 3.4.5 |
| SegmentDescriptors.SegmentDescriptor.Base | src/gdt.cpp:64-72 | reads the base field of the layout |
| SegmentDescriptors.SegmentDescriptor.Limit | src/gdt.cpp:74-83 | reads the limit field, scaled when G and D/B are set |
| SegmentDescriptors.DescriptorBytes | src/gdt.cpp:33-62 | the encoding byte by byte, with the flags 4 or 12 in the upper half of byte 6 |
| SegmentDescriptors.RoundTrip | src/gdt.cpp:33-83 | the base comes back; the limit is never larger, loses less than 4096, and is exact just for limits up to 65536 or with low 12 bits set |
| SegmentDescriptors.RoundTripIsTight | src/gdt.cpp:44-48 | a large limit decodes to the largest 4096k-1 that does not exceed it |
| SegmentDescriptors.ReencodingIsStable | src/gdt.cpp:33-83 | encoding a decoded limit decodes to the same limit |
| SegmentDescriptors.ReportedLimitIsEffective | src/gdt.cpp:74-83 | on arbitrary bytes Limit agrees with the processor exactly when G implies D/B |

## Left out

- Heap.MemoryManager.constructor: requires a start other than 0, because the list uses address 0 as its end mark; nothing is said about a heap at address 0.
- Files.FileSystem.WriteFile: requires room on the disk and sizes below 2^31, because the code checks neither; allocation past the end of the disk is not modelled.
- Files.FileSystem.ReadFile: requires files below the high-water mark, as every operation leaves them; a disk with arbitrary inodes is not modelled.
- FsRuns.FormattedRunRefines: a format that stops while a file with sectors still has its inode is not an event of a run, since no consistent file system is left then (FsFormat.FormatCrashExactly).
- FsHandles.HandleTraced: runs with handles contain no crashes and no further formats; those are in FsRuns.
- Multitasking.Task.constructor: the location of the saved state on the task's own stack, and its three registers that are never initialised, are not modelled.
- SegmentDescriptors.SegmentDescriptor.constructor: shifts, masks and bitwise-or are written as division, remainder and sum of unsigned values.
- The structure copies byte by byte through pointers: a structure is encoded to its bytes and then copied by the loops of the source, so aliasing of a structure with its bytes is not modelled.
- Loops and stores that the source writes inside one function are in places methods of their own (`Search`, `Split`, `Absorb`, `WriteData`, `PackInodes`, `MoveCursor`, `Advance` and others), with the same order of disk writes; `SetFree` stores the four fields of one new header in a fixed order.
- Failure of the 512-byte scratch allocations in the file system: the load and save routines would silently do nothing.
- The ATA driver: replaced by total reads and atomic writes on an array of sectors; timeouts, polling and device errors are not part of this model.
- Hardware cursor ports, graphics mode registers, and the hexadecimal and decimal printing built on `PutChar`.
- Interrupt stubs, the interrupt table, loader and linker script, system calls, keyboard, mouse, timer, shell and boot banner.
- `memcpy`, `memset`, `memcmp`, the active memory manager, and the `operator new` and `operator delete` wrappers around it.
- The global descriptor table object and its selectors; the code segment selector of a new task is a parameter.
- `ListFiles`, `PrintInfo`, timestamps and directories, which are empty or unused in the source.
