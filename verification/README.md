# OSIX verified

A Dafny model of the state machines of OSIX, a small Unix clone for the i386, with proofs of what they
promise: the storage allocator of its C library, the buffer cache, zone map, files, inodes and path lookup of
its Minix file system, descriptors and open files, physical pages and address spaces, the process life cycle,
pipes, the terminal's line discipline, `mktime`, the shell's pattern matcher, grep's matcher and the parser of bc.

`dafny verify dfyconfig.toml` checks everything.

## How it is laid out

Where the kernel updates a table in place there are two modules. One describes the state as a value, each
operation as a function on it, and proves what every operation keeps. The other is a class whose methods run
the loops of the code over arrays and fields and are proved equal to those functions.

| modules | part of the system |
|---|---|
| HeapSpec, Malloc | K&R allocator: memory is an array of 8-byte units, `sbrk` is a parameter that may refuse |
| BufSpec, BufRun, FreeRing, BufferCache | buffer cache in front of a disk |
| Bitmap, ZoneMap, ZoneRefine, PageMap | allocation bitmaps of zones and pages |
| FsSpec, FsData, FsTrunc, FsSteps, FileSystem | files laid out in direct and indirect zones |
| FsStale | how stale data in a recycled zone, and a full device, break them |
| InodeCodec, InodeSpec, InodeRun, InodeCache | inodes on disk and in memory |
| Layers | the file system seen through the caches and the zone map |
| Namei | path lookup and references |
| Directory, FsDirectory | directory entries as bytes, and what creating and unlinking names does to path lookup |
| FileSpec, FileTable | descriptors and open files |
| VmSpec, VmImage, VmRun, VmRights, Vm, VmProc | page tables kept in the pages they map, runs of page-level moves, and brk, fork, exec, exit over them |
| ProcSpec, ProcTable | fork, exit, wait, sleep, wakeup |
| PipeSpec, Pipe | pipes |
| Console, TtyLine, Tty | the text console, terminal input and line editing |
| ShellPattern, Grep, BcGrammar, Bc, Mktime | the user-level algorithms and `mktime` |
| Numbers, Wrappers | shared sizes, types and arithmetic |

## Hypotheses

The code relies on these; they appear as `requires` clauses or as guards of events.

- Device transfers complete within the call that starts them.
- A file has no holes, and a write starts at or below the size.
- Every directory entry has a zero byte in its name field, as the kernel writes it.
- The group and the link count of an inode fit in the byte each has on disk. `InodeCodec.RoundTrip` shows that
  this is needed.
- Every directory entry names an inode with a link, so that a path lookup never drops the last reference to an
  unlinked inode.
- A process writes to pages it has, and the programs of exec are files of this file system, which by their size
  end below the stack (`VmProc.ProgramFits`).
- init never exits, and signals do not interrupt `wait`, `sleep` or a pipe.
- `sbrk`, asked for a positive number of bytes, returns fresh units above all it returned before, or refuses.

## What turned out not to hold

- `malloc` of more than 2^32 - 8 bytes rounds to a block too small for the request (`Malloc.UnitsForSuffice`). Of
  more than 0x7FFFFFF0 it hands `sbrk` zero or a negative count, as 0 for 0xFFFFFFF8 bytes and -8 for 0xFFFFFFF0;
  `sbrk` succeeds and gives nothing, and `morecore` frees units that are not there (`Malloc.IncrementExact`,
  `Malloc.IncrementsAstray`).
- A zone taken as an indirect block with anything but zeros in it breaks ownership of zones
  (`FsSpec.BmapKeepsExactly`, `FsSpec.IndirectNeedsZeros`). One byte written to a file that is then truncated, and a
  write to the eighth block of another file, do it (`FsStale.StaleIndirect`, `FsStale.SmallBreaks`).
- On a full device `bmap` gives a writer block 0, which the writer then overwrites, and the file is left with a hole
  when its size is recorded (`FsSpec.BmapReachesExactly`, `FsStale.DeviceFull`, `FsStale.SmallFills`).
- A file created under a name of 30 characters or more is not found under it, only under its first 29
  (`Directory.CreatedIsFound`, `Directory.AddedFound`).
- A file whose group is 256 or more has another group when it is read back from disk (`InodeCodec.RoundTrip`,
  `InodeSpec.GroupLost`).
- The calls on descriptors keep the counts of open files but in three cases (`FileSpec.StepExact`): `dup2` of a
  descriptor onto itself lets the inode go when no other descriptor names the file (`FileSpec.Dup2OntoItself`);
  `open` without a free descriptor leaves a file counted that nobody can close (`FileSpec.OpenWithoutDescriptor`);
  and descriptor 32, which `dup` and `dup2` let through, is the user and group of the process: `dup2(0, 32)` stores
  the address of a file there (`FileSpec.Dup2PastTable`), and `dup(32)` by anybody but root takes them for one
  (`FileSpec.DupPastTable`).
- On the console the screen shows the edited line exactly as long as each key echoed takes one cell and finds room
  (`Tty.ShownExactly`). A tab takes five to eight cells and one erasure takes back one (`Tty.TabIsNotPlain`); an
  escape sequence is in the line and not on the screen (`Console.EscapeSwallowed`).
- A break above the stack page replaces the stack by a page of zeros and loses its page; at or below it the stack
  stays (`VmImage.BreakKeepsStackExactly`, for every address whose rounding does not wrap). A break at two megabytes
  does it (`VmImage.BreakAtTwoMegabytes`).
- A break above 0xFFFFF000 rounds to 0; the shrinking loop then starts at page 0, where nothing is mapped, frees
  page 0 of memory twice and so panics (`Vm.Vm.ProcBreak`, `Vm.Vm.FreeFromZero`).
- exit and exec unmap the stack page and do not free it: each loses exactly that page, but when the break is above
  it (`VmProc.Exit`, `VmProc.Exec`). fork loses one page exactly when the break is above the stack (`VmProc.Fork`).
- `bc` answers -10 to `0-5`: after a zero `atoi` takes the minus sign for its own. A zero literal is read as zero
  exactly when the zeros and minus signs behind it lead to no digit (`Bc.ZeroReads`, `Bc.ExprExact`,
  `Bc.ZeroMinusFiveMisread`); with a space before each operator every expression is read right
  (`Bc.PrintedTreeReads`).
- A read leaves the file when offset and count add up to 2^31 or more while the count is below that, as of 2^31 - 1
  bytes from offset 1, and from a negative offset (`FileSystem.StaysInsideExactly`, `FileSystem.ReadsAstray`).
- A 32-bit `time_t` holds exactly the dates up to 2038-01-19 03:14:07 (`Mktime.FitsUntil2038`).

## Model

| member | source | states |
|---|---|---|
| Malloc.Heap.Allocate | lib/libc/malloc.c:45-71 | for every size and from any roving pointer: serves the first fitting block of one lap from its tail; else goes astray if `sbrk` is handed no positive count, refuses when no memory comes, or serves within one more lap after the only request; live payloads untouched, free and live blocks partition the units obtained, free list one address-ordered cycle |
| Malloc.Heap.Free | lib/libc/malloc.c:74-94 | the block goes to its gap, merges with the neighbours it touches, roving pointer at the gap; all live words untouched, list and partition kept |
| Malloc.Heap.FindGap | lib/libc/malloc.c:79-81 | the search of `free` ends, from any roving pointer, at the one gap where the block belongs |
| Malloc.Heap.Join | lib/libc/malloc.c:83-92 | links and sizes of the neighbours become those of the merged list; no other word of memory changes |
| Malloc.Heap.Morecore | lib/libc/malloc.c:28-42 | one grant of at least 1024 units enters the list, or nothing changes: `sbrk` refuses, or it is handed zero or a negative count |
| Malloc.Heap.Store | lib/libc/malloc.c:45-94 | a client's writes to payload words of its block disturb nothing |
| Malloc.NextFitComplete | lib/libc/malloc.c:55-70 | a lap fails exactly when no block of the list fits, and finds the first that does after the roving pointer |
| Malloc.GrownFits | lib/libc/malloc.c:67-69 | after a grant the next lap succeeds from anywhere, also when the new block merged into the one at the roving pointer |
| Malloc.UnitsForSuffice | lib/libc/malloc.c:50-50 | the rounded size covers the request if and only if the 32-bit sum does not wrap |
| Malloc.IncrementExact | lib/libc/malloc.c:33-35 | the increment that reaches `sbrk` is the byte count, and positive, if and only if that is below 2^31: for requests up to 0x7FFFFFF0 bytes and those whose rounding wraps |
| Malloc.IncrementsAstray | lib/libc/brk.c:19-31 | two sizes for which `sbrk` is handed -8 and 0 |
| HeapSpec.FreeUndoesMalloc | lib/libc/malloc.c:45-94 | freeing what was just cut from a block restores the free list exactly |
| HeapSpec.FreesCommute | lib/libc/malloc.c:74-94 | two blocks freed in either order leave the same list |
| HeapSpec.InsertUnits | lib/libc/malloc.c:83-92 | freeing a block makes free exactly its units and those free before |
| HeapSpec.TakeUnits | lib/libc/malloc.c:56-63 | cutting a tail takes exactly its units out of the free ones |
| HeapSpec.TailTaken | lib/libc/malloc.c:56-63 | what is cut is the end of the block; the rest begins where the block began |
| HeapSpec.PartitionFree | lib/libc/malloc.c:74-94 | free and live blocks still partition the units obtained |
| HeapSpec.UnitsDetermineList | lib/libc/malloc.c:83-92 | two ordered lists without touching blocks that cover the same units are the same list |
| BufferCache.BufferCache.GetBlk | sys/kern/bio.c:12-63 | in-place search, sharing and recycling refine the value model with at most one buffer a block and the ring holding exactly the unreferenced buffers in release order |
| BufferCache.BufferCache.Bread | sys/kern/bio.c:65-78 | as the value model: cached contents, or those of the disk |
| BufferCache.BufferCache.Bwrite | sys/kern/bio.c:80-87 | the disk gets the buffer's contents, the buffer is clean and valid |
| BufferCache.BufferCache.Brelse | sys/kern/bio.c:89-113 | last release writes a dirty buffer back and queues it as most recently used |
| BufSpec.GetBlkKeepsInv | sys/kern/bio.c:12-63 | uniqueness of buffers, the ring and cleanness of free buffers survive every outcome, also when the caller has to sleep and start again |
| BufSpec.GetBlkKeepsView | sys/kern/bio.c:12-63 | getting a buffer changes the contents of no block, whichever buffer is recycled |
| BufSpec.BreadYieldsView | sys/kern/bio.c:65-78 | `bread` gives the current contents of the block and disturbs no other |
| BufSpec.VictimClean | sys/kern/bio.c:46-50 | the recycled buffer is the one released longest ago and never dirty |
| BufSpec.BrelseKeepsInv | sys/kern/bio.c:89-113 | release keeps the cache invariant |
| BufSpec.BrelseView | sys/kern/bio.c:89-113 | release changes no block's contents |
| BufSpec.WriteBackView | sys/kern/bio.c:80-87 | afterwards the disk and every reader have the buffer's contents in that block, all other blocks are as before |
| BufSpec.ModifyView | sys/kern/bio.c:65-87 | a holder's change shows in its block and in no other |
| BufSpec.UnheldIsOnDisk | sys/kern/bio.c:99-109 | a block nobody holds is on the disk as a reader sees it |
| BufRun.StepRefines | sys/kern/bio.c:12-123 | each of `getblk`, `bread`, a change, `bwrite`, `brelse` acts on every block as it would on a plain disk |
| BufRun.RunRefines | sys/kern/bio.c:12-123 | over any run a block is what was last put into it, whatever is recycled, written back and read again in between |
| BufRun.HoldersCounted | sys/kern/bio.c:12-113 | over any run from start-up each buffer's count is the number of callers that obtained it less those that released it, and the ring has exactly the buffers nobody holds |
| BufRun.GetThenRelease | sys/kern/bio.c:12-113 | obtaining a buffer and releasing it leaves every count and the members of the ring as they were |
| BufRun.GetCached | sys/kern/bio.c:22-37 | a cached block's buffer is waited for while busy and otherwise shared, with one holder more |
| BufRun.GetUncached | sys/kern/bio.c:42-62 | for any other block the buffer let go longest ago becomes its buffer, busy and not yet valid, or all are held |
| BufRun.BusyIsBeingFilled | sys/kern/bio.c:22-56 | over any run a buffer makes others wait exactly from when it was recycled to its first release after |
| BufRun.LongestLetGo | sys/kern/bio.c:46-62 | over any run the buffer recycled is, of those nobody holds, the one let go longest ago, by the events |
| FreeRing.Ring.Remove | sys/kern/bio.c:28-32 | unlinking takes that buffer out of the ring and keeps the order of the others |
| FreeRing.Ring.Append | sys/kern/bio.c:104-110 | a released buffer becomes the last of the ring |
| ZoneMap.ZoneMap.Balloc | sys/kern/bio.c:125-153 | marks and returns the first free zone over blocks, bytes and bits; 0 when all are taken |
| ZoneMap.ZoneMap.Bfree | sys/kern/bio.c:155-177 | clears that zone's bit alone, or reports the panic that applies, or that the 32-bit zone index lies outside the map |
| ZoneMap.BallocBfreeInverse | sys/kern/bio.c:125-177 | allocation and release undo each other bit for bit in both orders |
| ZoneRefine.BallocRefines | sys/kern/bio.c:125-153 | the bitmap stands for the set of taken zones: the scan finds the zone the file layer takes and adds it alone |
| ZoneRefine.BfreeRefines | sys/kern/bio.c:155-177 | release takes that zone alone out of the set |
| ZoneRefine.FreedRefines | sys/kern/inode.c:318-334 | freeing zones one after the other takes exactly those out of the set |
| ZoneRefine.PagesRefine | sys/i386/vmm.c:35-55 | the page bitmap stands for the set of allocated pages: allocation adds the page, release takes it out |
| Bitmap.SetTakes | sys/kern/bio.c:139-140 | setting a bit takes that unit and no other |
| Bitmap.SetThenClear | sys/kern/bio.c:139-175 | clearing a bit just set restores the map byte for byte |
| Bitmap.LowestFirst | sys/kern/bio.c:137-140 | bits count from the lowest of a byte |
| FsSpec.BmapGrows | sys/kern/inode.c:100-135 | a write takes one fresh zone for each missing block in the order of the zone map, moves no other zone, and every zone keeps one owner, is marked, and none is lost: if and only if the zones suffice and no zone with old data is made an indirect block |
| FsSpec.BmapReads | sys/kern/inode.c:100-135 | a reader finds the zone of a block that is there and changes nothing |
| FsSpec.BmapReachesExactly | sys/kern/inode.c:100-135 | a writer gets a block other than 0 if and only if the zones left suffice for the missing ones, or the last zone, just made an indirect block, has an old word at that place |
| FsSpec.ExtendsFile | sys/kern/inode.c:100-135 | growth of any file shows in the contents of none |
| FsSpec.IndirectNeedsZeros | sys/kern/inode.c:115-127 | a call for a block behind the direct ones of a file without indirect block keeps single ownership if and only if the zone handed out first reads as zeros |
| FsSpec.BmapKeepsExactly | sys/kern/inode.c:100-135 | growth keeps the file system in order if and only if the zone that becomes an indirect block, if one does, reads as zeros, also when zones run out on the way; no zone in use is moved or changed then |
| FsSpec.PutWordBytes | sys/kern/inode.c:120-126 | a zone number is two bytes of the indirect block, the low one first, and no other byte changes |
| FsStale.StaleIndirect | sys/kern/inode.c:115-127 | a byte written to an empty file, truncation, and a write to block 7 of a file without indirect zone: all in order up to the last step, ownership broken after it |
| FsStale.SmallBreaks | sys/kern/inode.c:115-127 | a file system of nine blocks in which this happens |
| FsStale.DeviceFull | sys/kern/inode.c:226-246 | for any file system with too few zones left: the segment goes over block 0 of the device, every file reads as before, and recording the size leaves a hole |
| FsStale.SmallFills | sys/kern/inode.c:226-246 | a file system of nine blocks in which one byte written, and then one more, put a byte into block 0 |
| FsData.PutData | sys/kern/inode.c:230-233 | writing a data zone changes that block of its one owner and no byte of any other file |
| FsData.TurnTwice | sys/kern/inode.c:226-240 | adjoining segments of a write add up to one write |
| FsData.ReadyNext | sys/kern/inode.c:226-240 | after each block the zones left still suffice for the rest of the write |
| FsData.WriteDone | sys/kern/inode.c:226-250 | at the end exactly the bytes written were replaced or added, and every other file is as it was |
| FsSteps.WriteStep | sys/kern/inode.c:226-240 | one turn of the write loop extends the written part by its segment |
| FsSteps.SegmentRead | sys/kern/inode.c:186-198 | what one turn of the read loop copies is that part of the contents |
| FileSystem.FileSystem.Bmap | sys/kern/inode.c:100-135 | the in-place lookup and growth is the one of the value model |
| FileSystem.FileSystem.Readi | sys/kern/inode.c:174-200 | for every `long` offset and `size_t` count: EINVAL past the end, the slice of the contents clamped to the size, no bytes and a negative number for a count that is no `long`, or astray; no change |
| FileSystem.FileSystem.Writei | sys/kern/inode.c:222-250 | for any bytes: all are written if and only if the zones suffice block by block, none adopted is stale and the end is within the indirect blocks, and then the contents are the old ones overwritten or extended, other files unchanged, stale bytes never show; otherwise the outcome that applies, the panic or the spoiled block |
| FileSystem.FileSystem.Itrunc | sys/kern/inode.c:312-340 | frees each zone of the file once, all allocated until then |
| FileSystem.StaysInsideExactly | sys/kern/inode.c:178-198 | from an offset of 0 or more the loop stays inside the file if and only if offset and count add up to a `long` or the count is none; from a negative one only if nothing is copied |
| FileSystem.ReadReturns | sys/kern/inode.c:178-200 | what is returned then: the bytes up to the end of the file, or none and a negative number |
| FileSystem.ReadsAstray | sys/kern/inode.c:178-198 | two reads that leave every file |
| FileSystem.WriteThenRead | sys/kern/inode.c:174-250 | what a write put there is what a read of that place gives |
| FileSystem.WriteThenReadElsewhere | sys/kern/inode.c:174-250 | reads before and behind the bytes written give what they gave |
| FsTrunc.TruncateKeeps | sys/kern/inode.c:312-340 | truncation gives back exactly the zones the file owned, leaves it empty and every other file as it was |
| FsTrunc.ZonesOfAre | sys/kern/inode.c:312-340 | the zones given back are those recorded anywhere in the file |
| FsTrunc.DropKeeps | sys/kern/inode.c:350-350 | taking an inode without zones out of use keeps the file system in order and every other file |
| InodeCodec.RoundTrip | sys/kern/inode.c:80-92 | written out and reloaded an inode has all its fields if and only if group and link count fit a byte |
| InodeCodec.EncodeDecode | sys/kern/inode.c:286-310 | writing back an inode just read changes no byte |
| InodeCodec.OnDisk | sys/kern/inode.c:294-307 | byte by byte: mode, owner, size, time, group, links, seven zones and two indirect zones, low bytes first, negative numbers in two's complement |
| InodeCodec.PlaceLinear | sys/kern/inode.c:27-31 | inodes lie one behind the other in the table behind superblock and maps |
| InodeCodec.PlacesDisjoint | sys/kern/inode.c:27-31 | distinct inode numbers have places on disk that do not overlap |
| InodeCodec.LoadAfterStore | sys/kern/inode.c:286-310 | an update is seen by loads of that inode and by no other |
| InodeSpec.StepRefines | sys/kern/inode.c:33-98 | every event keeps one slot an inode and clean slots equal to the disk, and changes no inode except by a write or the last release of an unlinked one |
| InodeSpec.RunRefines | sys/kern/inode.c:33-98 | through any run an inode is what was last written to it, wherever cached, evicted, written back or reloaded in between |
| InodeRun.HoldersCounted | sys/kern/inode.c:33-98 | over any run from start-up the count of a slot is the number of those who obtained or duplicated it and have not put it, and it is locked exactly between a lock, or the start of its read, and the unlock |
| InodeRun.GetCached | sys/kern/inode.c:36-53 | an inode in memory is waited for while locked and otherwise shared |
| InodeRun.GetUncached | sys/kern/inode.c:55-98 | any other gets a slot nobody holds and that is clean, which then names it, locked; it fails only if there is none |
| InodeRun.GetThenPut | sys/kern/inode.c:33-355 | obtaining an inode and putting it leaves its count |
| InodeRun.UpdateReachesDisk | sys/kern/inode.c:286-310 | afterwards the disk has the inode as it is in memory |
| InodeRun.LastPut | sys/kern/inode.c:342-355 | the last put of an unlinked inode leaves it without zones and size, in memory and on disk, and otherwise as it was |
| InodeSpec.NeverEvicted | sys/kern/inode.c:62-79 | a referenced or changed inode keeps its slot, and its references but for the one given up |
| InodeSpec.GroupLost | sys/kern/inode.c:286-310 | a group of 256 or more is another one on disk |
| InodeCache.InodeCache.Iget | sys/kern/inode.c:33-98 | the table scans refine the value model: wait, share, reserve the first reusable slot, or report a full cache |
| InodeCache.InodeCache.Fill | sys/kern/inode.c:74-98 | the reserved slot gets the fields on disk and is unlocked |
| InodeCache.InodeCache.Iupdate | sys/kern/inode.c:286-310 | a changed inode goes to its place on disk, a clean one nowhere |
| InodeCache.InodeCache.Iput | sys/kern/inode.c:342-355 | one reference less; the last one of an unlinked inode writes it out empty |
| Namei.Inodes.Nameicore | sys/kern/inode.c:380-453 | from the root or the current directory, finds what the path names component by component, in both modes, with EACCES, EIO and ENOENT where they apply; on success one reference more on the result and none elsewhere, on an error none at all, no lock left |
| Layers.CacheUnseen | sys/kern/bio.c:12-113 | fetching, sharing, recycling, writing back and releasing buffers leave the file system above as it is |
| Layers.CacheChange | sys/kern/inode.c:230-233 | changing the buffer of a zone is replacing that block of the file system |
| Layers.InodesUnseen | sys/kern/inode.c:33-98 | looking up, caching, evicting and writing out inodes leave the file system above as it is |
| Layers.InodeChange | sys/kern/inode.c:242-246 | changing the fields of an inode moves that file and no other |
| Layers.ReleaseEmpties | sys/kern/inode.c:342-355 | the last release of an unlinked inode, with its zones freed in the zone map in any order and its number, is truncation and removal of that file; all those zones were marked, every other file is as it was, the file system stays in order |
| Layers.ReleasedEmpty | sys/kern/inode.c:345-353 | until its number is given out again the inode released is there and empty |
| Layers.ZoneTaken | sys/kern/bio.c:125-153 | marking the first free bit takes the zone the file system takes next |
| Namei.SlashesCollapse | sys/kern/inode.c:383-387 | however many slashes lead, separate or trail, the components are the names between them |
| Namei.AbsoluteFromRoot | sys/kern/inode.c:383-386 | a path that begins with a slash is followed from the root, whatever the current directory |
| Namei.RelativeFromCwd | sys/kern/inode.c:387-389 | any other path is followed from the current directory |
| Namei.WalkIsChain | sys/kern/inode.c:391-450 | a lookup goes along a chain of directories, each to what its first entry in use with the next name names, and stops exactly where one may not be searched, cannot be read, or has no such entry |
| Namei.OneChain | sys/kern/inode.c:391-450 | there is only one such chain |
| Namei.LookupFinds | sys/kern/inode.c:413-420 | the scan finds the first entry in use with that name |
| Namei.WalkAppend | sys/kern/inode.c:391-450 | following a path is following its beginning and then its end |
| Namei.ParentThenName | sys/kern/inode.c:430-450 | looking the last name up in what parent mode finds gives what the whole path names |
| Directory.RecordReads | sys/kern/file.c:76-99 | an entry as `wdir` writes it is read back as the 16-bit inode number and the first 29 characters of the name |
| Directory.AddedIs | sys/kern/file.c:76-99 | the bytes written add that one entry to the directory, in the first place not in use or behind the last |
| Directory.RemovedIs | sys/kern/file.c:101-146 | the bytes written take the first entry of that name out of use and leave the others |
| Directory.InsertLooksUp | sys/kern/file.c:76-99 | a new entry is found under its name unless an earlier one has it, and shows under no other |
| Directory.InsertKeepsUnique | sys/kern/file.c:76-99 | names stay unique if and only if no entry has the new name |
| Directory.RemoveUndoesInsert | sys/kern/file.c:76-146 | unlinking what was added leaves the lookup of every name as it was |
| Directory.AddedFound | sys/kern/file.c:76-99 | a name that was not there is found after it has been added if and only if it has at most 29 characters |
| Directory.CreatedWalks | sys/kern/file.c:148-176 | a new name takes no path, through however many directories, from what it led to |
| Directory.CreatedIsFound | sys/kern/file.c:148-176 | after creation in the directory that parent mode finds, the whole path leads to the new inode, if the name has at most 29 characters, and to ENOENT otherwise |
| Directory.UnlinkedIsGone | sys/kern/file.c:101-146 | after unlinking in the directory that parent mode finds, the whole path leads to ENOENT |
| FsDirectory.Wdir | sys/kern/file.c:76-99 | over the file layer: the directory's contents are those of the value model, every other file as it was, or the write ends as one of that length at that place does |
| FsDirectory.Unlink | sys/kern/file.c:101-146 | over the file layer: the inode number found, the entry cleared, every other file as it was; takes no zone and cannot fail |
| FsDirectory.WdirTree | sys/kern/file.c:76-99 | what path lookup sees afterwards is its tree with the one entry added |
| FsDirectory.UnlinkTree | sys/kern/file.c:101-146 | what path lookup sees afterwards is its tree with the one entry removed |
| FsDirectory.ReadWhole | sys/kern/inode.c:404-410 | the read of a whole directory is never short |
| FileSpec.StepExact | sys/kern/file.c:22-74 | a call keeps every count equal to the descriptors of live processes that name the file, its inode in place, and every user and group intact, if and only if it is not one of the harmful calls |
| FileSpec.RunCounts | sys/kern/file.c:22-74 | the same over any run of open, close, dup, dup2, fork and exit without a harmful call |
| FileSpec.Dup2Exact | sys/kern/file.c:288-302 | `dup2` keeps them if and only if it is not onto itself from the only descriptor and neither descriptor is the one past the table |
| FileSpec.DupExact | sys/kern/file.c:275-286 | `dup` keeps them if and only if a descriptor past the table does not get through to a free one |
| FileSpec.Dup2OntoItself | sys/kern/file.c:288-302 | after `open`, `dup2(0, 0)` succeeds with the inode gone |
| FileSpec.Dup2PastTable | sys/kern/file.c:288-302 | after `open`, `dup2(0, 32)` by root succeeds: counted twice, named once, user and group overwritten |
| FileSpec.DupPastTable | sys/kern/file.c:275-286 | `dup(32)` by anybody but root takes user and group for a file |
| FileSpec.OpenWithoutDescriptor | sys/kern/file.c:178-220 | after one `open` and 31 `dup`s the next `open` fails and leaves a counted file nobody names |
| FileSpec.OpenExact | sys/kern/file.c:178-220 | `open` keeps the counts if and only if a descriptor was found for the file |
| FileSpec.AllocUnnamed | sys/kern/file.c:32-42 | a file handed out is named by no descriptor of a live process |
| FileSpec.ForkKeeps | sys/kern/kern_fork.c:77-81 | the child's copies are counted |
| FileSpec.ExitKeeps | sys/kern/kern_exit.c:34-38 | the descriptors of the process are no longer counted, though the zombie keeps them |
| FileSpec.OpenNames | sys/kern/file.c:22-42 | open gives the lowest free descriptor, which names a file nothing referred to, now what was opened; else the error that applies |
| FileSpec.CloseFrees | sys/kern/file.c:44-74 | close frees the descriptor, and its file is counted once less and let go with the last |
| FileSpec.DupNames | sys/kern/file.c:270-286 | dup gives the lowest free descriptor, which names the file of the old one, counted once more; all other descriptors and files are as before; else the error that applies |
| FileSpec.Dup2NamesFile | sys/kern/file.c:288-302 | the new descriptor names the file of the old one, counted once more; what it named before is counted once less; all else as before |
| FileSpec.ForkShares | sys/kern/kern_fork.c:77-81 | each descriptor of the child names what the parent's names, the parent's and all others are as before, and each file is counted once more for every descriptor of the parent that names it |
| FileSpec.ExitReleases | sys/kern/kern_exit.c:38-44 | each file is counted once less for every descriptor that named it, and let go when none is left; no other process's descriptors change |
| FileSpec.OpenThenClose | sys/kern/file.c:22-74 | closing what was just opened leaves files and descriptors as they were |
| FileSpec.DupThenClose | sys/kern/file.c:63-286 | closing a duplicate leaves files and descriptors as they were |
| FileSpec.ForkThenExit | sys/kern/kern_exit.c:34-38 | a child that exits at once leaves every file as before the fork |
| FileTable.FileTable.Close | sys/kern/file.c:63-74 | the in-place close is that of the value model and meets no count of zero |
| FileTable.FileTable.Dup | sys/kern/file.c:275-286 | for every descriptor the code lets through, the one past the table included, the call of the value model |
| FileTable.FileTable.Dup2 | sys/kern/file.c:288-302 | closes, counts and stores in the order of the code, for every descriptor it lets through |
| FileTable.FileTable.Fork | sys/kern/kern_fork.c:77-81 | the loop gives the child every descriptor, each counted |
| FileTable.FileTable.Exit | sys/kern/kern_exit.c:34-38 | the loop closes every descriptor and never finds a file without references |
| VmSpec.Repointed | sys/i386/pmap.c:104-115 | changing one reference to a page keeps all pages owned once and accounted for |
| VmSpec.SetPte | sys/i386/pmap.c:104-115 | writing a table entry, in the memory the tables are kept in, remaps that page of that process and no other |
| VmSpec.SetPde | sys/i386/pmap.c:127-136 | hanging in a cleared table maps nothing and moves nothing |
| VmSpec.NewDir | sys/i386/pmap.c:27-45 | a new directory has no user page and disturbs no process |
| VmSpec.DropDir | sys/i386/pmap.c:47-69 | tables and directory of an empty space become free, nothing else does |
| VmSpec.WriteUser | sys/kern/kern_fork.c:12-21 | a write through one process's mapping shows there, in no other process and in no table |
| VmImage.Isolation | sys/i386/pmap.c:71-98 | two mapped pages are the same physical page only when they are the same page of the same process; it is allocated and no table |
| VmImage.StackWalkExact | sys/kern/kern_exec.c:59-66 | the loop that takes the stack down takes it alone if and only if the break leaves a gap |
| VmImage.BreakKeepsStackExactly | sys/kern/proc.c:296-326 | for every address whose rounding does not wrap: a process with its break at or below the stack keeps the stack and loses no page if and only if the address is at or below the stack page; otherwise zeros are there and exactly the old stack page has no owner; with its break above, no page is lost |
| VmImage.BreakAtTwoMegabytes | sys/kern/proc.c:296-313 | the call that asks for two megabytes loses the stack |
| VmImage.SpaceBounded | sys/i386/vmm.c:14-25 | memory is smaller than the space of a process, so growth ends below the kernel |
| VmRun.MoveKeeps | sys/i386/pmap.c:27-166 | each of nine page-level moves keeps all pages accounted for, frees only allocated pages and allocates only free ones |
| VmRun.RunIsolates | sys/i386/pmap.c:71-166 | after any run of moves two mapped pages are one physical page only if they are the same page of the same process; it is allocated and no table |
| VmRun.NoDoubleFree | sys/i386/vmm.c:40-56 | over any run a page freed twice has been allocated in between |
| VmRights.MappedMayBeWritten | sys/i386/pmap.c:104-143 | from a machine without processes on, whatever moves are made, the directory entry and the table entry that lead to a page are present, writable and open to the user |
| VmRights.ProcessMayWrite | sys/i386/pmap.c:104-143 | so it is in every state the operations reach |
| Vm.Vm.PmapEnter | sys/i386/pmap.c:117-143 | the page given appears at that address and nothing else changes, whether or not a table had to be made; a page that was there has no owner any more |
| Vm.Vm.PmapRemove | sys/i386/pmap.c:149-166 | that page disappears and is nobody's |
| Vm.Vm.PmapDestroy | sys/i386/pmap.c:47-69 | frees every table and the directory, each allocated until then |
| Vm.Vm.ProcBreak | sys/kern/proc.c:296-326 | for any 32-bit address: pages between old and new break appear zeroed or are freed, the rest of the image, other processes and the layout are kept, and a page is lost only where growth goes over the stack; panics if and only if the rounding wraps; shrinking cannot fail otherwise; all of it a run of moves |
| Vm.Vm.GrowTo | sys/kern/proc.c:306-313 | the growing loop to any page: zeroed pages appear, and the stack page is displaced if and only if the loop goes over it |
| Vm.Vm.FreeFromZero | sys/kern/proc.c:314-320 | the shrinking loop from page 0 of the process finds nothing mapped there and frees page 0 of memory |
| Vm.Vm.ShrinkOne | sys/kern/proc.c:314-319 | the page freed was allocated and is mapped nowhere else |
| VmProc.ProcCreate | sys/kern/proc.c:178-210 | for any program that is a file: from no address space to one with the program and its stack, nobody else sees a difference |
| VmProc.Make | sys/kern/proc.c:296-326 | any call of create, fork, exec, exit, brk or a write keeps all processes laid out and has its effect; it panics if and only if it is a break that wraps, and fails otherwise only with every page allocated |
| VmProc.MakeAll | sys/kern/proc.c:296-326 | after any sequence of such calls, from the empty machine on, all processes are isolated, unless memory ran out or a break wrapped |
| VmProc.Fork | sys/kern/kern_fork.c:54-72 | the child's image equals the parent's if the parent has its stack, no other process sees a difference, and no page is lost, but one if and only if the break is above the stack |
| VmProc.Exit | sys/kern/kern_exit.c:21-44 | the space goes, others see no difference, and exactly one page, that of the stack, stays allocated with no owner, or none when the break was above it |
| VmProc.Exec | sys/kern/kern_exec.c:34-69 | for any program that is a file: the process sees the new program and stack and nothing of the old, others no difference, and exactly the old stack's page stays allocated with no owner, or none when the break was above it |
| VmProc.ProgramFits | sys/kern/kern_exec.c:38-54 | the longest file there can be ends, as a program, more than a page below the stack |
| PageMap.PageMap.AllocPage | sys/i386/vmm.c:14-38 | takes the lowest free page of the first byte that is not full, in the order of the wrap-around scan, and fails only when all are taken |
| PageMap.PageMap.FreePage | sys/i386/vmm.c:40-56 | clears that page's bit alone, or reports the panic that applies |
| PageMap.NextFitComplete | sys/i386/vmm.c:16-21 | the wrap-around scan misses no byte of a lap, wherever it begins, and stops at the first that is not full |
| PageMap.OutOfMemoryExactly | sys/i386/vmm.c:16-25 | the panic is reached exactly when every page is taken |
| ProcSpec.NextKeepsInv | sys/kern/proc.c:133-165 | fork, exit, wait, sleep and wakeup keep pids unique, parents alive and older, statuses held once, and a process asleep in wait with a child and no zombie child |
| ProcSpec.EveryStatusOnce | sys/kern/proc.c:244-272 | over any run each status handed to exit is held by one zombie or has been delivered once, unchanged, to the process whose fork made the one that exited, or to init once that process has exited; who made whom and what was handed over is read off the events |
| ProcSpec.HistoryIsEvents | sys/kern/kern_fork.c:23-35 | the history in the model is that of the fork and exit events |
| ProcSpec.ForkMakesChild | sys/kern/kern_fork.c:23-84 | with a slot and a pid left a fork makes one running child of the process that forked, with the next pid, and otherwise leaves every process as it was |
| ProcSpec.ParentIsMaker | sys/kern/kern_fork.c:29-29 | over any run the parent of a process is the one whose fork made it, or init once that one has exited |
| ProcSpec.WakeOtherRuns | sys/kern/proc.c:226-233 | a wakeup of an address runs the processes asleep on it and touches no other |
| ProcSpec.SleepThenWakeup | sys/kern/proc.c:226-242 | over any run a process asleep on an address stays so until a wakeup of that address, and then runs |
| ProcSpec.Ancestors | sys/kern/kern_fork.c:23-35 | the parent chain of every process goes strictly down in pid and ends at init |
| ProcSpec.RunHistory | sys/kern/kern_exit.c:9-56 | statuses and deliveries are never replaced or repeated |
| ProcSpec.ExitWakesWaiter | sys/kern/kern_exit.c:10-48 | an exit leaves neither the parent, nor init when it adopts a zombie, asleep in wait |
| ProcSpec.WaitOutcome | sys/kern/proc.c:244-272 | wait collects one zombie child whenever there is one and frees its slot, sleeps with children and none a zombie, and gives up without children; no other process changes |
| ProcTable.ProcTable.Fork | sys/kern/kern_fork.c:23-35 | the first free slot becomes the child with the next pid, or nothing changes |
| ProcTable.ProcTable.Exit | sys/kern/kern_exit.c:9-56 | adoption, wakeups and the zombie transition in the order of the code are one step of the model |
| ProcTable.ProcTable.Wait | sys/kern/proc.c:244-272 | one pass of the loop is one step of the model, with the result it reports |
| ProcTable.ProcTable.Wakeup | sys/kern/proc.c:226-233 | exactly the processes asleep on the channel run again |
| PipeSpec.NextKeepsInv | sys/kern/pipe.c:23-66 | bytes written are bytes read and then those in the pipe; a sleeping reader means it is empty, a sleeping writer full |
| PipeSpec.RunIsSafe | sys/kern/pipe.c:23-66 | over any interleaving the stream is kept, the buffer bounded, and no reader sleeps while a writer sleeps |
| PipeSpec.RunAdvances | sys/kern/pipe.c:23-66 | running an awake process completes its call, moves bytes, or finds nothing it could do |
| PipeSpec.ReadDelivers | sys/kern/pipe.c:23-45 | a read delivers the next bytes of the stream in order |
| PipeSpec.WriteDelivers | sys/kern/pipe.c:47-66 | over any run, from its start to its return, a write call puts exactly its data into the pipe, in order, however often it sleeps; before it returns a beginning of them and never all |
| PipeSpec.ReadReturns | sys/kern/pipe.c:23-45 | over any run a read call takes bytes only as it returns, as many as wanted or all there are, and none only if none are wanted or the writers are gone |
| PipeSpec.CallStep | sys/kern/pipe.c:23-66 | each event appends a writer's next bytes, hands a reader the first, or changes nothing in a call but whether it sleeps |
| Pipe.TakeByte | sys/kern/pipe.c:38-41 | taking the byte at the read counter removes the oldest, also when the 32-bit counter wraps |
| Pipe.PutByte | sys/kern/pipe.c:59-62 | storing at the write counter appends, also when the counter wraps |
| Pipe.Pipe.Read | sys/kern/pipe.c:23-45 | the loop takes a prefix of the buffered bytes and says whether it has to sleep |
| Pipe.Pipe.Write | sys/kern/pipe.c:47-66 | the loop appends what fits and says whether it has to sleep |
| Pipe.PipeKernel.Run | sys/kern/pipe.c:23-66 | a scheduling of a process is one step of the model, and what a reader gets and what stays in the pipe are together what was there |
| TtyLine.AcceptKeepsNewest | sys/kern/tty.c:111-128 | however characters arrive the input ring holds the last 255 unread ones, interrupt keys left out |
| TtyLine.RingPush | sys/kern/tty.c:121-125 | storing a character appends it and drops the oldest of a full ring |
| TtyLine.KillWordStops | sys/kern/tty.c:55-70 | kill-word keeps a prefix: it stops at the start of the line or at a space, and all it removes is that space, one run without spaces, and the spaces behind it |
| TtyLine.KillWordTakesWord | sys/kern/tty.c:55-70 | a word typed behind a space goes, with that space and the spaces behind it |
| TtyLine.EraseUndoesKey | sys/kern/tty.c:49-54 | an erasure undoes a typed character |
| TtyLine.InterruptTakenOut | sys/kern/tty.c:111-128 | interrupt keys are taken out of what arrives and nothing else is |
| Console.PutShowsExactly | sys/i386/cons.c:59-131 | after one more character the screen shows the longer line if and only if the character takes one cell and finds room, scrolling included |
| Console.EraseShows | sys/kern/tty.c:49-54 | backspace, space, backspace takes the last character of a line shown off the screen |
| Console.TabThenErase | sys/i386/cons.c:66-67 | a tab and an erasure leave the cursor at least four cells past the prompt |
| Console.EscapeSwallowed | sys/i386/cons.c:103-171 | an escape sequence in the line is not on the screen |
| Console.ClearShows | sys/kern/tty.c:77-84 | the bytes of CTRL-l leave an empty screen |
| Console.RowMoves | sys/i386/cons.c:60-81 | carriage return and newline move to the start of this row and of the next, scrolling below the last; no character changes |
| Console.CellMoves | sys/i386/cons.c:64-67 | backspace goes one cell back, tab four to eight cells on to a multiple of four |
| Console.RowErased | sys/i386/cons.c:89-154 | an escape sequence with one argument and K blanks the row of the cursor and nothing else |
| Console.CursorPlaced | sys/i386/cons.c:96-160 | one with two numbers and f moves the cursor to that row and column |
| Console.EscapeEnds | sys/i386/cons.c:133-171 | a control character or a letter without a meaning ends an escape sequence and changes nothing on the screen |
| TtyLine.EchoShowsExactly | sys/kern/tty.c:49-91 | after the echo of a key the screen shows the edited line if and only if the key is plain |
| Tty.ShownExactly | sys/kern/tty.c:17-95 | until the read returns, for any keys and arrivals, the screen shows the line as edited so far if and only if every key is plain |
| Tty.TabIsNotPlain | sys/kern/tty.c:87-91 | the failing input: a tab, then an erasure |
| Tty.TextReads | sys/kern/tty.c:17-95 | a line of text is read as it was typed, up to the newline or the size asked for, and what is typed behind stays queued |
| Tty.KeysRead | sys/kern/tty.c:40-95 | a character and its erasure leave no trace in what is read; kill line starts again; end of file ends the read, and so does clear screen on an empty line; raw mode reads one character |
| Tty.ScreenApart | sys/kern/tty.c:17-95 | what is read does not depend on the screen, and without echo the screen does not change |
| Tty.Tty.Read | sys/kern/tty.c:17-95 | line, queue and screen are the fold of the input in both modes, whatever arrives while it sleeps |
| Tty.Tty.EraseWord | sys/kern/tty.c:55-70 | cuts the line where kill-word says, with one erasure on the screen for each character cut |
| Tty.Tty.Input | sys/kern/tty.c:111-128 | one character accepted or taken as an interrupt |
| ShellPattern.PatternMatch | bin/sh.c:71-102 | true if and only if the string matches under the recursive meaning of `*` and `?`; ends, and never goes back to a null pointer |
| ShellPattern.LastStarSuffices | bin/sh.c:82-96 | once a star is passed only the places to go back to at the last star matter |
| ShellPattern.StarAbsorbs | bin/sh.c:83-88 | a star matches if and only if its rest matches some suffix |
| ShellPattern.OneCharacter | bin/sh.c:71-102 | a star matches anything, a question mark one character, any other itself |
| ShellPattern.Concatenation | bin/sh.c:71-102 | two patterns one behind the other match what is something the first matches and then something the second does |
| Grep.Match | bin/grep.c:77-86 | true if and only if some part of the text, anchored as asked, is in the language of the expression |
| Grep.MatchHere | bin/grep.c:63-74 | true if and only if the text begins with a word of the language |
| Grep.MatchStar | bin/grep.c:89-96 | true if and only if some number of fitting characters and then the rest match |
| Grep.HereStar | bin/grep.c:89-96 | the meaning of a starred atom at the head of an expression, by how many characters it takes |
| Grep.PlainFound | bin/grep.c:77-86 | an expression without special characters is found exactly where the text has it |
| Grep.PlainAtBegin | bin/grep.c:77-80 | behind `^` exactly at the beginning |
| Grep.PlainAtEnd | bin/grep.c:67-68 | before `$` exactly at the end |
| Grep.StarredBetween | bin/grep.c:63-96 | `^a c* b$` matches exactly `a`, any number of `c` or, for a dot, anything, and `b` |
| Bc.LineReads | usr.bin/bc.c:14-73 | the text of any expression, however spaced, in which the zeros and minus signs behind each zero literal lead to no digit evaluates to its left-associative truncated-division value and is consumed exactly |
| Bc.ExprExact | usr.bin/bc.c:14-20 | that condition holds if and only if each literal of the line is read as its value |
| Bc.SpacedLineReads | usr.bin/bc.c:14-73 | it holds where no minus stands directly behind a zero literal |
| Bc.PrintedTreeReads | usr.bin/bc.c:14-73 | any tree printed with minimal parentheses evaluates to the value of the tree |
| Bc.ZeroReads | usr.bin/bc.c:14-20 | a zero literal is read as zero if and only if the zeros and minus signs behind it lead to no digit |
| Bc.ZeroMinusFiveMisread | usr.bin/bc.c:14-20 | the text `0-5` evaluates to -10 |
| BcGrammar.QuotientTruncates | usr.bin/bc.c:46-48 | division leaves a remainder smaller than the divisor and none of the other sign than the dividend |
| BcGrammar.OneQuotient | usr.bin/bc.c:46-48 | no other number does |
| BcGrammar.Results | usr.bin/bc.c:37-73 | each operator has a result exactly when an `int` holds it; subtraction undoes addition and division multiplication; division fails by zero and for the least number by -1 alone |
| Bc.Parser.ParseExpr | usr.bin/bc.c:56-73 | the loop with its moving cursor computes the parse of the value model |
| Bc.Parser.ParseFactor | usr.bin/bc.c:22-35 | likewise for a factor |
| Bc.Parser.ConvertInt | lib/libc/atoi.c:2-23 | the conversion loop with its sign, no value where `int` overflows |
| Mktime.Mktime | sys/libkern/mktime.c:12-41 | for valid dates from 1970 the seconds since the Epoch of the Gregorian calendar |
| Mktime.YearDaysClosed | sys/libkern/mktime.c:29-32 | the day loop equals the closed form of section 4.16 of POSIX.1-2017 XBD |
| Mktime.Gregorian | sys/libkern/mktime.c:6-8 | leap years are those of the Gregorian calendar |
| Mktime.MonthLengths | sys/libkern/mktime.c:4-4 | the lengths of the months |
| Mktime.DaysBeforeClosed | sys/libkern/mktime.c:19-27 | the days of a year before each month, in closed form |
| Mktime.TickAdds | sys/libkern/mktime.c:12-41 | the date and time one second later has one second more, across minutes, hours, days, months and years |
| Mktime.EverySecond | sys/libkern/mktime.c:12-41 | every number of seconds is that of a date |
| Mktime.StrictlyMonotone | sys/libkern/mktime.c:12-41 | a date comes before another if and only if its seconds do |
| Mktime.FitsUntil2038 | sys/libkern/mktime.c:12-41 | the seconds fit a signed 32-bit `time_t` if and only if the date is not after 2038-01-19 03:14:07 |

## Left out

- FileSystem.FileSystem.Readi: character and block devices, device errors, and what is copied once the loop has left the file.
- FileSystem.FileSystem.Writei: device branches, a write that starts beyond the size, and what follows once a zone was missing or stale; `FsStale.DeviceFull` and `FsStale.StaleIndirect` have the step itself.
- FileSystem.FileSystem.Balloc: one device whose blocks are read through the cache as plain contents; Layers ties these to the cache, and the buffers held meanwhile are in BufSpec. The blocks of the inode table and of the maps are not tied to the cache, and no one theorem runs a whole `writei` over cache and map.
- BufferCache.BufferCache.GetBlk: asynchronous completion and `B_ERROR`; a process that has to sleep is an outcome after which it calls again.
- InodeCache.InodeCache.Iput: the zones and the inode number freed at the last release are not in the method; `Layers.ReleaseEmpties` has them.
- InodeCache.InodeCache.Iget: one superblock for all devices, as in the code; I/O errors.
- Namei.Inodes.Nameicore: several devices, and waiting for a locked inode; the caller's tree does not change during the lookup.
- FileTable.FileTable.Open: name lookup, access checks and the failure paths of `sys_open`, which use a stale inode pointer; `sys_mkdir`.
- FileTable.FileTable.Dup2: what the kernel does to memory once user and group have been taken for the address of a file; that is one outcome, after which nothing is promised.
- FileSpec.ForkKeeps: the file a pipe end names is counted, its reader and writer counts are not.
- Vm.Vm.AllocPage: any free page may be chosen; PageMap has the scan that chooses. Out of memory is a panic in the code, and after it nothing is promised.
- VmProc.Fork: credentials, signal state and the interrupt frame; protection bits beyond those of a user page.
- VmProc.Exec: reading and checking the program file, and laying out arguments on the stack, whose contents are a parameter.
- ProcTable.ProcTable.Wait: signals; a woken process may be given any next step, so also the loop's next pass.
- ProcSpec.NextKeepsInv: the `iput` of exit is taken not to sleep; pid exhaustion makes fork fail.
- PipeSpec.NextKeepsInv: `pipe_close` is not modelled beyond the writers being gone: it wakes nobody, and since `O_RDONLY` is 0 it never counts a reader out.
- Tty.Tty.Read: several terminals, output devices that fail, and job control beyond dropping CTRL-c from the input. The screen is that of the video console; over the serial line the bytes go to a terminal that is not part of this model.
- Console.PutShowsExactly: colours, and escape sequences with more than four arguments, which the code writes past its table.
- Malloc.Heap.Morecore: what follows when `sbrk` gives no memory and succeeds; that is one outcome, after which nothing is promised.
- Mktime.Mktime: normalisation of out-of-range fields, which the code does not do either; arithmetic is exact and `Mktime.FitsUntil2038` says where 32 bits suffice.
- Bc.LineReads: overflow of `int` has no value; division by zero has none.
- The scheduler's sweep, signal delivery, inode-map allocation (`ialloc`, `ifree` are scans like those of the zone map), and the access checks, link counts and locks around `wdir` and `sys_unlink`.
- TLB flushes, the recursive directory mapping and the kernel's temporary mappings; device drivers, networking, stdio and the other commands.
