# An inode file system on a block device, modelled in Dafny

This project models a small Unix-like file system that sits on a block device of
512-byte blocks. It follows the system's own structure:

- **SuperBlock** (`superblocks.dfy`): the counters in block 0 (`totalBlocks`, `totalInodes`, `freeList`).
  - `formatDisk` lays out the inode blocks and threads the remaining blocks into a free list.
  - `getNextFreeBlock` and `returnBlock` pop and push that list.
- **Inode** (`inodes.dfy`): 32-byte records, sixteen to a block from block 1 on.
  - The `Inode(short)` decoder, `toDisk` / `toBlockData`, and `invalidate` / `markForDeath`.
  - The READ / WRITE / DEATH flag machine behind `waitRead`, `finishRead`, `waitWrite` and `finishWrite`.
- **Directory** (`directories.dfy`): the parallel arrays `fsize` and `fnames`.
  - `ialloc`, `ifree`, `namei`, `iname` and `compare`.
  - The `directory2bytes` / `bytes2directory` serializer, whose format is `count | (len, bytes)*`.
- **FileTable and FileTableEntry** (`filetables.dfy`): the open-file table. `falloc` creates or shares an entry; `ffree` releases one.
- **FileSystem** (`filesystems.dfy`, with the read/write specification in `filedata.dfy`): the calls a thread makes.
  - `open`, `close`, `seek` (through `boundSeekPtr`), `read`, `write`, `size`, `delete` and `format`.

The support modules make the Java runtime explicit:

- `java_ints.dfy`: `int`/`short` wrap-around, truncating `/` and `%`, and signed bytes.
- `codec.dfy`: the four- and two-byte encodings used by `int2bytes` / `short2bytes` / `bytes2int` / `bytes2short`.
- `device.dfy`: the block device as a sequence of 512-byte blocks. A read or write outside it fails.
- `options.dfy`: `Option`, an `Outcome` that is either a returned value or a thrown exception, and a `Wait` that is either done or blocked.

## How the model reads the Java

- **State.** The static counters of `SuperBlock` and the device behind `SysLib` become one `SuperBlock` object holding a `Disk`. Every operation that touched the statics takes that object.
- **Classes.** `Inode`, `Directory`, `FileTable`, `FileTableEntry` and `FileSystem` are classes with the same fields. Their methods update those fields in place.
- **Arrays.** The arrays stay arrays: the direct pointers, `fsize`, the two-dimensional `fnames`, the block buffers and the thread's descriptor table.
- **Specification functions.** Each method is proved against a function of the state it starts from:
  - `Allocate` / `Free` for the allocator;
  - `LoadRecord` / `StoreRecord` for inodes;
  - `Serialize` / `Parse` for the directory;
  - `ReadBody` / `WriteBody` for the transfer loops.

  The properties of those functions are proved as lemmas.
- **Waits.** A blocking `wait()` loop is modelled by its guard. Where the guard holds, the call goes on as a plain state update. Where it fails, the call answers `Blocked` and changes nothing. There are two exceptions. `delete` first marks the inode for death, as the Java does before its wait. `close` first decrements the inode's count (FileSystem.java:139), before `ffree` reaches its wait, so a `Blocked` close leaves the count one lower.
- **Runtime exceptions.** An array index out of bounds, a null dereference or a division by zero is an explicit `Threw` outcome, never a precondition.
- **Integers.** Java `int` and `short` arithmetic wraps explicitly where it can overflow.
- **Byte order.** `SysLib`'s codec is not part of this model. Its encoding is taken to be big-endian two's complement, and round-trip lemmas are proved both ways.
- **String comparison.** The Java compares `mode` with `==`, by reference, so a mode string that is not an interned literal is refused by the code. The model compares by value, which agrees with the Java for literal mode strings.
- **`falloc` and `ffree`.** As written, `FileTable.falloc` does not compile: it redeclares `inode` at FileTable.java:40 and :59, shadowing the one at :20. Its `while (true)` at :22 has no exit, and both loops index `table` with `tableIndex` (-1) instead of `i` at :52 and :92. The model follows the evident intent: one pass, one `inode` variable, and indexing with the loop variable. `FileTable.fempty` calls `table.empty()` (FileTable.java:119), which `Vector` does not have (it has `isEmpty()`). `FileTable.Fempty` follows the evident intent.
- **File table access.** `FileSystem` reaches into `fileTable.table`, which is private. The model reads the table's `table` field directly.
- **Read-only files.** The doc comment of `open` (FileSystem.java:82-83) says that opening a missing file in mode `r` fails. The code creates the file for every mode, and the model follows the code.

## Model

| member | source | states |
|---|---|---|
| JavaInts.Int32Wraps | FileSystem.java:605-606 | Java's narrowing to `int` keeps the value modulo 2^32, so `seekPtr +=` and `length +=` wrap instead of growing |
| JavaInts.Short | Inode.java:38 | a `(short)` cast is congruent to its argument modulo 2^16 and the identity inside the short range |
| JavaInts.JRem | FileSystem.java:318-320 | Java's `%` by a positive divisor: `a == (a / b) * b + r`, with `r` taking the sign of `a` |
| JavaInts.Signed8 | Inode.java:159 | the `byte` readerCount, compared as a Java value, is the signed value in [-128, 128) with the same bit pattern |
| Codec.IntRoundTrip | SuperBlock.java:50-66 | `bytes2int` reads back what `int2bytes` wrote |
| Codec.IntBytesOfGetInt | SuperBlock.java:50-66 | encoding what `bytes2int` read gives the same four bytes, so the codec is a bijection |
| Codec.ShortRoundTrip | Inode.java:56-94 | `bytes2short` reads back what `short2bytes` wrote |
| Codec.ShortBytesOfGetShort | Inode.java:56-94 | encoding what `bytes2short` read gives the same two bytes |
| Codec.GetPutInt | SuperBlock.java:141-143 | an int put into a buffer reads back from the same place |
| Codec.GetPutShort | FileSystem.java:530-540 | a short put into a buffer reads back from the same place |
| Codec.GetIntFrame | SuperBlock.java:168 | `bytes2int` looks only at its own four bytes |
| Codec.GetShortFrame | FileSystem.java:519 | `bytes2short` looks only at its own two bytes |
| Codec.WriteInt | SuperBlock.java:64-66 | `int2bytes` into a buffer changes exactly the four bytes at the offset, to the value's encoding |
| Codec.WriteShort | Inode.java:90 | `short2bytes` into a buffer changes exactly the two bytes at the offset, to the value's encoding |
| Device.Store | SuperBlock.java:174 | a block write replaces that block only, and is lost when the index is off the device |
| Device.Disk.Read | SuperBlock.java:45-48 | a read yields a block exactly when the index is on the device, and then that block's 512 bytes |
| Device.Disk.ReadInto | FileSystem.java:338-343 | `cread`: status 0 and the buffer holds the block, or -1 and the buffer is untouched |
| Device.Disk.Write | SuperBlock.java:68 | `rawwrite` / `cwrite`: status 0 and the block replaced, or -1 and nothing written |
| Inodes.RecordInBlock | Inode.java:38-54 | inode n's 32 bytes at offset (n % 16)·32 of block n / 16 + 1 fit inside that block, which is never block 0 |
| Inodes.RecordsDisjoint | Inode.java:78-88 | two different inodes never share a byte: another block, or disjoint offsets in the same block |
| Inodes.EncodeRecordFields | Inode.java:89-95 | the encoding puts length at +0, count at +4, flag at +6, readerCount at +7, direct[i] at +8+2i and indirect at +30 |
| Inodes.PlaceRecord | Inode.java:110-117 | writing a record puts its 32 bytes at the offset and keeps every other byte of the block |
| Inodes.RecordRoundTrip | Inode.java:55-95 | decoding a stored record gives back length, count, every direct pointer and indirect; the flag comes back as the stored readerCount |
| Inodes.FlagRoundTripsOnlyIfEqual | Inode.java:57-58 | the flag survives a store and a load if and only if it equals readerCount |
| Inodes.DecodeAtFrame | Inode.java:54-62 | decoding depends only on the record's own 32 bytes |
| Inodes.LoadRecord | Inode.java:28-52 | an inode number outside [0, totalInodes], past totalBlocks or on an unreadable block loads as the invalid record |
| Inodes.LoadAfterStore | Inode.java:28-98 | after `toDisk` of inode n, loading n gives what was stored (up to the flag defect) and every other inode loads as before |
| Inodes.MayReadIffNoWriter | Inode.java:159 | a reader may go on exactly when WRITE is clear, because a Java byte readerCount is always below 255 |
| Inodes.ReadCycle | Inode.java:157-181 | `waitRead` keeps the lock consistent, admits more readers and shuts writers out; `finishRead` right after restores the lock |
| Inodes.ReleaseOneOfMany | Inode.java:173-181 | releasing one of several readers keeps the lock consistent and writers still out |
| Inodes.WriteCycle | Inode.java:183-200 | `waitWrite` shuts out readers and writers; `finishWrite` right after, by XOR-toggling WRITE, restores exactly the lock it started from |
| Inodes.UnmatchedReleaseWriteLocks | Inode.java:195-197 | `finishWrite` without a matching `waitWrite` sets WRITE and locks writers out |
| Inodes.MarkDeathOnlyDeath | Inode.java:147-155 | `markForDeath` sets the DEATH bit, leaves every other bit, and is idempotent |
| Inodes.Inode.constructor | Inode.java:23-26 | `new Inode()` is the invalid record |
| Inodes.Inode.Load | Inode.java:28-63 | `new Inode(iNumber)` holds the record loaded from the device for that number, or the invalid record |
| Inodes.Inode.Decode | Inode.java:54-62 | the fields read from a record are the decoding of its bytes, with readerCount kept |
| Inodes.Inode.WriteRecord | Inode.java:88-95 | the record's encoding is written at the offset and nothing else in the buffer changes |
| Inodes.Inode.WriteHead | Inode.java:89-92 | the first eight bytes of the record are written at the offset |
| Inodes.Inode.WriteDirects | Inode.java:93-94 | the eleven direct pointers follow the first eight bytes |
| Inodes.Inode.ToBlockData | Inode.java:100-120 | -1 and an untouched buffer for a bad number, a buffer not 512 bytes long, or a block past totalBlocks; otherwise 0 and the record placed |
| Inodes.Inode.ToDisk | Inode.java:69-98 | -1 and the device untouched for a bad number or an unreadable block; otherwise 0 and the record stored in its block |
| Inodes.Inode.Invalidate | Inode.java:122-130 | length, count and flag 0, and every pointer -1; readerCount is left alone |
| Inodes.Inode.MarkForDeath | Inode.java:147-150 | only the DEATH bit of the flag changes |
| Inodes.Inode.IsDying | Inode.java:152-155 | true exactly when the DEATH bit is set, that is, when `markForDeath` would leave the flag as it is |
| Inodes.Inode.WaitRead | Inode.java:157-171 | once WRITE is clear: readerCount up by one and READ set, with the other fields unchanged |
| Inodes.Inode.FinishRead | Inode.java:173-181 | readerCount down by one, and READ toggled when it reaches 0 |
| Inodes.Inode.WaitWrite | Inode.java:183-193 | once READ and WRITE are clear: WRITE set |
| Inodes.Inode.FinishWrite | Inode.java:195-200 | WRITE XOR-toggled |
| SuperBlocks.HeaderRoundTrip | SuperBlock.java:50-66 | the three counters written into block 0 read back unchanged |
| SuperBlocks.Mount | SuperBlock.java:42-62 | with block 0 readable, the mounted totalBlocks is the disk size (adopted from the disk, or reset to 64 inodes with free list at 5) |
| SuperBlocks.SyncThenMount | SuperBlock.java:136-149 | counters of a formatted disk, synced and mounted again, come back as they were |
| SuperBlocks.MountTwice | SuperBlock.java:42-69 | mounting twice settles on the same counters as mounting once |
| SuperBlocks.NextOfFreeBlockImage | SuperBlock.java:165-168 | a free block written with next pointer `next` reads back its next pointer as `(short) next` |
| SuperBlocks.ReturnThenAllocate | SuperBlock.java:154-217 | LIFO: `returnBlock(b)` then `getNextFreeBlock()` hands b back, zeroed, and restores the previous head when it was not 0 |
| SuperBlocks.ReturnThenAllocateFromZeroHead | SuperBlock.java:184-190 | when the previous head was 0, the allocation after a return moves the head to b + 1 instead |
| SuperBlocks.ReturnPastEndIsAccepted | SuperBlock.java:205-216 | `returnBlock(totalBlocks)` is accepted, writes nothing, and the next allocation hands out that nonexistent block |
| SuperBlocks.AllocateFromChain | SuperBlock.java:154-196 | from a well-formed free list, allocation hands out its first block zeroed and leaves the rest well formed; an empty list gives -1 and changes nothing |
| SuperBlocks.AllocateManyFromChain | SuperBlock.java:154-196 | k successive allocations hand out the list's first k blocks in order |
| SuperBlocks.NoBlockIssuedTwice | SuperBlock.java:154-196 | without returns in between, no block is handed out twice, and each is a real block other than block 0 |
| SuperBlocks.ReturnExtendsChain | SuperBlock.java:202-217 | returning a block that is not on the list makes it the head of a still well-formed list |
| SuperBlocks.InodeRegion | SuperBlock.java:93-94 | the inode blocks lie between block 0 and freeList, and the last inode's block is just before freeList |
| SuperBlocks.LastInodeNumberInFreeRegion | Inode.java:75-81 | inode number totalInodes is placeable by `toDisk`'s guard (`Placeable`), yet when totalInodes is a multiple of 16 its record lies in the first free block |
| SuperBlocks.InodeImageLoads | SuperBlock.java:102-109 | each inode slot formatDisk fills in its buffer loads back as the invalid record |
| SuperBlocks.InodeImageFull | SuperBlock.java:102-108 | once the buffer's sixteen slots are full, placing another invalid inode changes nothing |
| SuperBlocks.FirstRecordCoversHeader | SuperBlock.java:97-104 | inode 0's record overwrites the counters left in the shared buffer |
| SuperBlocks.InodeWritesStep | SuperBlock.java:106-108 | one more pass of the inode loop writes the buffer to block i / 16 + 1 exactly when i = 16 or i is the last inode |
| SuperBlocks.InodeBufferFills | SuperBlock.java:103-104 | within the first inode block, inode i's record fills slot i of the buffer |
| SuperBlocks.MountAfterFormat | SuperBlock.java:83-131 | after formatDisk(n), mounting finds totalBlocks, n, and freeList = ⌈n / 16⌉ + 1 |
| SuperBlocks.FormatImageFreeBlock | SuperBlock.java:120-126 | each block of the free region holds the pointer to the next block, then zeros |
| SuperBlocks.FormatBuildsFreeList | SuperBlock.java:117-130 | a format that finishes its loop leaves [freeList, totalBlocks) as a well-formed free list, in order |
| SuperBlocks.FormatLink | SuperBlock.java:121 | each free block points at b + 1, and the last at -1 |
| SuperBlocks.FormatInodesLoadInvalid | SuperBlock.java:102-109 | with at most sixteen inodes, every inode formatDisk sets up loads back as invalid |
| SuperBlocks.FormatFirstInodeBlock | SuperBlock.java:102-109 | with at most sixteen inodes, block 1 holds exactly n invalid records |
| SuperBlocks.FormatSkipsFirstInodeBlock | SuperBlock.java:106-107 | with more than sixteen inodes, block 1 is never written |
| SuperBlocks.SuperBlock.constructor | SuperBlock.java:42-69 | the counters are those `Mount` settles on, and block 0 is rewritten with them |
| SuperBlocks.SuperBlock.WriteHeader | SuperBlock.java:64-66 | the three counters go into the first twelve bytes of the buffer |
| SuperBlocks.SuperBlock.Invalidate | SuperBlock.java:73-77 | all three counters become 0 |
| SuperBlocks.SuperBlock.Sync | SuperBlock.java:136-149 | block 0 gets the counters over its first twelve bytes, and the rest of the block is kept |
| SuperBlocks.SuperBlock.GetNextFreeBlock | SuperBlock.java:154-196 | the answer and the new state are those of `Allocate`, whose properties are the lemmas above |
| SuperBlocks.SuperBlock.ReturnBlock | SuperBlock.java:202-217 | the answer and the new state are those of `Free`: -1 and nothing changed outside [0, totalBlocks], else the block pushed |
| SuperBlocks.SuperBlock.FormatDisk | SuperBlock.java:83-131 | nothing changes for n outside [0, 255]; otherwise totalInodes = n, freeList = ⌈n / 16⌉ + 1, and the device is `FormatImage` |
| SuperBlocks.SuperBlock.ClearBuffer | SuperBlock.java:113-115 | every byte of the buffer is 0 |
| SuperBlocks.SuperBlock.FormatInodes | SuperBlock.java:102-109 | the device after the whole inode loop |
| SuperBlocks.SuperBlock.FormatInode | SuperBlock.java:103-108 | one pass of the inode loop: the device, and the buffer holding i + 1 invalid records |
| SuperBlocks.SuperBlock.FlushInodes | SuperBlock.java:106-108 | the buffer goes to block i / 16 + 1 when i = 16 or i is the last inode |
| SuperBlocks.SuperBlock.PlaceFresh | SuperBlock.java:103-104 | a fresh inode's record is placed in slot i when `toBlockData` accepts i |
| SuperBlocks.SuperBlock.FormatFreeList | SuperBlock.java:117-130 | the free-list loop writes [freeList, totalBlocks); with fewer than ten blocks it throws after the first write |
| Directories.PaddedAt | Directory.java:210-212 | `getChars` into a zeroed row leaves the name's chars, then zeros |
| Directories.CompareFromZeroIff | Directory.java:214-222 | the comparison loop answers 0 exactly when the rest of the two rows are equal |
| Directories.CompareFromSign | Directory.java:214-220 | a nonzero answer is the sign of the first difference |
| Directories.CompareMeaning | Directory.java:210-224 | `compare` is 0 if and only if the name, padded or cut to the row, equals the row; otherwise it is ±1 by the first difference |
| Directories.CompareRowWithItself | Directory.java:196-203 | a row read back as a string, as `iname` gives it, compares equal to that row |
| Directories.AllocatedRowMatchesIffClean | Directory.java:139-166 | a name written over a stale row matches its row if and only if the rest of the row is zero |
| Directories.FindFrom | Directory.java:183-187 | the first row that compares equal to the name, or -1 exactly when none does |
| Directories.FreeFrom | Directory.java:125-127 | the first row whose first char is 0, or -1 exactly when there is none |
| Directories.CharByteRoundTrip | Directory.java:71-100 | a char survives the trip through a byte if and only if it is ASCII or a sign-extended byte |
| Directories.EncodeSlotsLength | Directory.java:95-103 | the slots take four bytes each plus the names' lengths |
| Directories.Serialize | Directory.java:82-106 | `directory2bytes` is 4 + 4·n + Σ fsize bytes long |
| Directories.SlotWritten | Directory.java:95-101 | writing slot i right after the earlier slots extends the output by that slot's bytes |
| Directories.ParseSlotsStep | Directory.java:66-75 | `bytes2directory` reads one slot as its length and that many chars, then goes on after it |
| Directories.ParseStops | Directory.java:67-71 | a slot whose header or name runs off the input, or whose length exceeds 30, makes `bytes2directory` throw |
| Directories.ParseEncodedSlots | Directory.java:46-106 | slots written by `directory2bytes` are read back whatever follows them |
| Directories.SerializeRoundTrip | Directory.java:46-106 | `bytes2directory(directory2bytes())` restores the slot count, each length and each ASCII name followed by zeros |
| Directories.TableRoundTrip | Directory.java:46-106 | a table whose rows are zero after their ASCII names comes back exactly as it was |
| Directories.Directory.constructor | Directory.java:25-40 | slot 0 is "/" of length 1; every other slot has length 0 and an all-zero row |
| Directories.Directory.Namei | Directory.java:175-190 | -1 for a name longer than 30; otherwise the first matching slot + 1, or -1 exactly when no slot matches |
| Directories.InameIn | Directory.java:196-203 | over a table's rows: a row exactly when 1 ≤ iNumber < the row count, and then row iNumber, which compares equal to itself |
| Directories.Directory.Iname | Directory.java:196-203 | a row exactly when 1 ≤ iNumber < fsize.length: row iNumber (not iNumber - 1), which compares equal to itself |
| Directories.Directory.Ialloc | Directory.java:112-147 | -1 for a name too long, already present, or with no free slot; else the first free slot holds the name, the inode is reset on disk, and slot + 1 is returned; when that slot was zero past the name, `namei` of the name then gives the same number |
| Directories.IallocThenNamei | Directory.java:112-147 | `ialloc` of a new name into a free row that is zero past the name, then `namei`'s scan, finds that very row (a stale row is `AllocatedRowMatchesIffClean`'s case) |
| Directories.Directory.ResetInode | Directory.java:142-144 | the device holds the invalid record for that inode number |
| Directories.Directory.Scan | Directory.java:118-132 | the scan stops at a match, which is found if and only if some slot matches; otherwise it reports the first free slot |
| Directories.Directory.PutName | Directory.java:139-140 | the slot's length becomes the name's length and its row starts with the name, the rest kept |
| Directories.Directory.Ifree | Directory.java:153-169 | false and nothing changed outside [1, fsize.length]; otherwise true, the inode reset on disk, size 0 and first char 0 |
| Directories.Directory.DirectoryToBytes | Directory.java:82-106 | the output is `Serialize` of the names the table holds, which the round-trip lemmas read back |
| Directories.Directory.TotalSize | Directory.java:83-86 | the sum of all names' lengths, at most 30 per slot |
| Directories.Directory.WriteSlot | Directory.java:96-101 | slot i's length and the low bytes of its name at the index, and the next index |
| Directories.Directory.BytesToDirectory | Directory.java:46-78 | -1 and nothing changed for empty input or a count below 1; a throw for truncated input or a length over 30; else fresh arrays holding the parsed table, and the count |
| Directories.LoadSlots | Directory.java:64-75 | the loop succeeds exactly when every slot parses, and then the arrays hold what was parsed |
| Directories.LoadSlot | Directory.java:67-74 | one slot read into its row, every other slot unchanged, or the whole input fails to parse |
| Directories.LoadName | Directory.java:70-72 | `size` bytes widened into the zeroed row, failing exactly when the row or the input runs out |
| FileTables.FileTableEntry.constructor | FileTableEntry.java:35-45 | the caller's own inode object; seekPtr is the length in mode "a" and 0 otherwise; count 1 |
| FileTables.IndexOf | FileTable.java:89-97 | the first position with that inode number, or -1 when there is none |
| FileTables.RemoveAt | FileTable.java:108 | `removeElementAt`: one entry shorter, later entries shifted down |
| FileTables.FileTable.constructor | FileTable.java:10-14 | an empty table over the directory |
| FileTables.FileTable.Search | FileTable.java:89-97 | the search loop finds the first entry with the number, as `IndexOf` |
| FileTables.FileTable.Falloc | FileTable.java:16-85 | unknown names are created (null when `ialloc` fails) and appended; known names share or load the inode: null when dying and a wait while held, both with the table, the disk and the resident inode as they were, else count + 1 and a new entry |
| FileTables.FileTable.Create | FileTable.java:26-46 | `falloc` for an unknown name: null when `ialloc` fails, else a fresh inode of count 1 and a new entry appended |
| FileTables.FileTable.Admit | FileTable.java:40-80 | the new file's entry: fresh inode of count 1, seekPtr 0, appended to the table |
| FileTables.FileTable.Share | FileTable.java:47-71 | `falloc` for a known name leaves the table alone and shares or loads the inode; when dying or held, the disk and the resident inode are left as they were |
| FileTables.FileTable.Holding | FileTable.java:49-63 | the inode `falloc` would share for a number: at most one, that of the first table entry with it |
| FileTables.FileTable.Hand | FileTable.java:65-70 | null for a dying inode and a wait while it is held, both leaving the inode and the disk unchanged; otherwise count + 1 and the inode written back |
| FileTables.FileTable.Lookup | FileTable.java:49-63 | the inode of the first entry with the number, or one loaded from disk |
| FileTables.FileTable.Take | FileTable.java:68-70 | WRITE set and count + 1 on the inode |
| FileTables.FileTable.Publish | FileTable.java:74-84 | the inode written back, a new entry of count 1 over it, and WRITE toggled off |
| FileTables.FileTable.Enter | FileTable.java:76-80 | the entry is appended exactly when the file is new |
| FileTables.FileTable.Release | FileTable.java:103-112 | the entry's and the inode's counts each drop by one; the entry leaves exactly when the inode count reaches 0 |
| FileTables.FileTable.Ffree | FileTable.java:87-115 | false and nothing changed without an entry of that number; otherwise the first such entry and its inode each lose a count, removed at 0 |
| FileTables.FileTable.Fempty | FileTable.java:117-120 | true exactly when the table holds no entries |
| FileData.Resolve | FileSystem.java:334-432 | logical block n is direct[n] for n < 11, else slot n - 11 of the indirect block, and only a block on the device |
| FileData.Copy | FileSystem.java:388-390 | `System.arraycopy`: the target range holds the source range, and everything else is kept |
| FileData.ReadPlanSize | FileSystem.java:322-324 | readSize is min(buffer length, length - seekPtr) |
| FileData.Chunk | FileSystem.java:406-407 | a block's share is min(512, size - bo) |
| FileData.PlanArithmetic | FileSystem.java:318-327 | blockNum = p / 512, blockOffset = p % 512, lastBlock = (p + size) / 512, and blockCount matches lastBlock - blockNum + 1 |
| FileData.ReadFirstOpens | FileSystem.java:334-383 | read's first block opens exactly when blockNum resolves and, when lastBlock reaches 10, the indirect block reads |
| FileData.LoopPointerResolves | FileSystem.java:409-432 | the loop's pointer for block n is the one `Resolve` finds, and it throws only past block 267 |
| FileData.ReadLoopAnswer | FileSystem.java:403-445 | read's loop answers size exactly when each block resolves, otherwise -1 or a throw past block 267 |
| FileData.ReadStep | FileSystem.java:439-443 | one pass puts block n's first `chunk` bytes after the bytes already in the buffer |
| FileData.ReadLoopBuffer | FileSystem.java:403-445 | when the loop returns size, the buffer holds the file's bytes from p and seekPtr moved by the bytes copied |
| FileData.ReadFromAnswer | FileSystem.java:385-446 | the answer of read once its plan is made |
| FileData.ReadFromBuffer | FileSystem.java:385-446 | the buffer and seekPtr of read once its plan is made |
| FileData.ReadOneBuffer | FileSystem.java:385-393 | a one-block read copies bytes offset..offset + size of the block |
| FileData.ReadManyBuffer | FileSystem.java:394-446 | a multi-block read copies the first block's tail, then the loop |
| FileData.ReadManyHead | FileSystem.java:397-401 | the first block's tail is the file's first bytes, at the front of the buffer, and the next block starts right after it |
| FileData.ReadAnswer | FileSystem.java:314-450 | a read from p < length answers min(buffer length, length - p) exactly when every block resolves, else -1 (or a throw past block 267) |
| FileData.ReadBuffer | FileSystem.java:314-450 | a read that answers its size leaves the file's bytes from p at the front of the buffer and the rest as it was; seekPtr moves by the size, less the first block's share when several blocks are read |
| FileData.Fill | FileSystem.java:572-574 | a pointer holding the hole value gets a block from `getNextFreeBlock`; any other pointer is kept with the allocator unchanged |
| FileData.WriteFirst | FileSystem.java:497-589 | write's start stops with -1 or a throw, or goes on with a block and a state that stays sane |
| FileData.WriteLoop | FileSystem.java:629-704 | write's loop answers size, -1 or a throw, and the state stays sane |
| FileData.WriteBody | FileSystem.java:481-710 | write answers writeSize, -1 or a throw |
| FileData.WriteKeeps | FileSystem.java:481-710 | write only fills holes: set pointers stay, and a write answering its size has set every direct pointer it visited |
| FileData.WriteLoopKeeps | FileSystem.java:629-704 | the loop never changes a pointer that was set |
| FileData.WriteLoopFills | FileSystem.java:666-680 | when the loop gets through, every direct pointer it visited is set |
| FileData.WriteFirstKeeps | FileSystem.java:497-589 | the start fills only holes, and a direct first block is the inode's pointer |
| FileData.WriteHeadKeeps | FileSystem.java:591-627 | the first copy fills only holes |
| FileData.WritePointerKeeps | FileSystem.java:639-681 | the loop's pointer step fills only holes |
| FileData.WriteStepKeeps | FileSystem.java:639-704 | a pass of the loop fills only holes |
| FileData.ResolveStore | FileSystem.java:694 | writing a data block other than the indirect block moves no logical block |
| FileData.FileBytesStore | FileSystem.java:694 | writing a block that none of the earlier logical blocks resolves to keeps their bytes |
| FileData.ChunkInPlace | FileSystem.java:683-703 | a block in place takes the next `chunk` bytes of the buffer after the bytes already in the file |
| FileData.WriteStepInPlace | FileSystem.java:639-703 | a pass over a block in place copies the next chunk, keeps pointers and free list, and moves seekPtr and length by the chunk |
| FileData.WriteLoopInPlace | FileSystem.java:629-704 | the loop over blocks in place answers size, with the buffer's bytes in the file and seekPtr and length moved by size - bo |
| FileData.WriteFirstInPlace | FileSystem.java:497-589 | over blocks in place the start allocates nothing and opens the file's own block |
| FileData.WriteHeadInPlace | FileSystem.java:591-627 | the first copy over blocks in place puts the buffer's first bytes at p |
| FileData.WritePlanSize | FileSystem.java:485-487 | within MAX_FILE_SIZE, writeSize is the buffer's length |
| FileData.WriteInPlace | FileSystem.java:481-710 | a write over blocks in place answers the buffer's length, the file then holds the buffer from p, nothing is allocated, and seekPtr moves to p + len |
| FileData.ReadInPlace | FileSystem.java:314-450 | bytes of a file in place are read back as they are |
| FileData.WriteThenRead | FileSystem.java:294-711 | a write over blocks in place, read back from the same seek pointer with a buffer of the same length, gives exactly the bytes written |
| FileData.IndirectStartLosesBlock | FileSystem.java:517-547 | a write starting past the direct pointers on a 0 entry writes the pointer table into the new data block, so the indirect block never records it |
| FileData.WriteAtMaxThrows | FileSystem.java:485-519 | with seekPtr at MAX_FILE_SIZE, write throws instead of answering 0 |
| FileData.BoundaryAllocates | FileSystem.java:489-704 | a write ending exactly on a block boundary allocates one block more than the bytes need |
| FileSystems.ArrayCopy | FileSystem.java:594-596 | `System.arraycopy` into a block buffer is `Copy` of the old contents |
| FileSystems.FillHole | FileSystem.java:572-574 | a -1 pointer is filled from `getNextFreeBlock`, as `Fill` states |
| FileSystems.StartWrite | FileSystem.java:497-589 | write's start does what `WriteFirst` says, and the block it goes on with is read into the buffer |
| FileSystems.StartIndirect | FileSystem.java:497-547 | the start past the direct pointers, as `WriteFirst` |
| FileSystems.IndirectFilled | FileSystem.java:500-502 | with an indirect block in place, nothing more is allocated for it |
| FileSystems.TableStart | FileSystem.java:509-547 | with an indirect block in place, the start is -1, a throw, or the block its entry names |
| FileSystems.FromTable | FileSystem.java:509-547 | the start through the pointer table, as `WriteFirst` |
| FileSystems.FillEntry | FileSystem.java:521-538 | a 0 entry gets a block, is set in the table, and the table is written to that new block |
| FileSystems.StartDirect | FileSystem.java:548-589 | the start within the direct pointers, as `WriteFirst` |
| FileSystems.LoadIndirect | FileSystem.java:550-570 | the indirect block is filled if missing and read when the transfer reaches it |
| FileSystems.NextPointer | FileSystem.java:639-681 | the loop's pointer for block n, as `WritePointer` |
| FileSystems.NextFromTable | FileSystem.java:639-664 | a 0 table entry is filled and the table written back to the indirect block |
| FileSystems.NextDirect | FileSystem.java:665-681 | a -1 direct pointer is filled in the inode |
| FileSystems.CopyBack | FileSystem.java:594-606 | the copy, the write-back, and seekPtr and length both advanced by len, as `Advance` |
| FileSystems.WriteNext | FileSystem.java:632-703 | one pass of the loop, as `WriteStep` |
| FileSystems.WriteFirstBlock | FileSystem.java:497-606 | the start and first copy, as `WriteHead` |
| FileSystems.HeadAfterFirst | FileSystem.java:591-606 | after the start, the first copy either throws or advances by its head bytes |
| FileSystems.LoopPass | FileSystem.java:629-704 | a pass that stops ends the loop; one that goes on leaves the loop from the next block |
| FileSystems.WritePass | FileSystem.java:629-704 | one pass, stated as the loop it leaves behind |
| FileSystems.WriteBlocks | FileSystem.java:629-704 | the loop's answer and state are those of `WriteLoop` |
| FileSystems.WriteTransfer | FileSystem.java:481-710 | write after its checks answers and leaves the state as `WriteBody` does |
| FileSystems.WriteOnward | FileSystem.java:591-706 | what follows the first copy, as `WriteRest` |
| FileSystems.StartReadIndirect | FileSystem.java:334-360 | read's first block through the pointer table, as `ReadFirst` |
| FileSystems.StartReadDirect | FileSystem.java:362-383 | read's first block from a direct pointer, as `ReadFirst` |
| FileSystems.ReadPass | FileSystem.java:403-445 | one pass of read's loop, as the loop it leaves behind |
| FileSystems.ReadBlock | FileSystem.java:426-443 | a block off the device gives -1, an oversized chunk throws, otherwise the copy |
| FileSystems.CopyOut | FileSystem.java:439-443 | `chunk` bytes copied into the buffer at bo, and seekPtr advanced by chunk (wrapping) |
| FileSystems.ReadOnCases | FileSystem.java:409-443 | a pass of read's loop ends in one of four ways: a throw, -1, a throw from the copy, or the next block |
| FileSystems.ReadBlocks | FileSystem.java:403-445 | read's loop, as `ReadLoop` |
| FileSystems.ReadOpened | FileSystem.java:385-446 | read once its first block is open, as `ReadFrom` |
| FileSystems.ReadTransfer | FileSystem.java:318-450 | read after its checks answers, fills the buffer and moves seekPtr as `ReadBody` does |
| FileSystems.FreeAllAppend | FileSystem.java:246-268 | returning xs then ys is returning xs + ys |
| FileSystems.FreeAllKeeps | FileSystem.java:246-268 | a block none of the returned pointers names keeps its contents |
| FileSystems.PositiveEntries | FileSystem.java:258-266 | the entries delete returns are exactly the positive ones |
| FileSystems.FreeAllExtendsChain | FileSystem.java:246-248 | returning distinct blocks off the list puts them on its front, last one first |
| FileSystems.ReclaimExtendsChain | FileSystem.java:246-269 | when the file's blocks are distinct and off the list, delete puts them all on the free list |
| FileSystems.ReturnPointers | FileSystem.java:246-248 | delete's loop returns every direct pointer in turn |
| FileSystems.ReturnEntries | FileSystem.java:257-266 | delete's loop returns every positive entry of the indirect block in turn |
| FileSystems.ReturnEntry | FileSystem.java:259-265 | entry k is returned exactly when it is positive |
| FileSystems.ReclaimBlocks | FileSystem.java:246-269 | the direct pointers, then the positive entries and the indirect block itself; false when the indirect block cannot be read |
| FileSystems.Descriptor | FileSystem.java:181-183 | an entry exactly for fd ≥ 3 within a thread's table and on a non-null slot |
| FileSystems.BoundSeekPtr | FileSystem.java:752-754 | a negative target becomes 0, a target in [0, length] is kept, and a non-empty file keeps the pointer in [0, length] |
| FileSystems.SeekPastEndStopsShort | FileSystem.java:753 | a target past the end lands on length - 1, not length |
| FileSystems.SeekInEmptyFileGoesNegative | FileSystem.java:753 | in an empty file every positive target gives -1 |
| FileSystems.SeekTarget | FileSystem.java:188-198 | the target is the offset, or the offset added (with wrap-around) to seekPtr or the length |
| FileSystems.LowestFree | FileSystem.java:99-105 | the lowest null slot from 3 on, with every slot before it taken |
| FileSystems.DeleteFindsSlot | FileSystem.java:237-240 | delete's scan for the name `iname` gives always stops, at that row or before |
| FileSystems.RemoveAtKeeps | FileSystem.java:271 | every entry left after the removal was in the table before |
| FileSystems.FileSystem.Admit | FileSystem.java:112-115 | `falloc` as open sees it, from the state open starts in: refused with no entry, waiting with none, or a fresh entry of count 1 for the name's number (the first free directory slot + 1 for a new name); the table and directory are `falloc`'s (a new name written into that slot and its entry appended, or both unchanged for a known name); the device and inodes are `falloc`'s too: unchanged when it refuses or waits; for a new name a fresh inode of count 1 whose record is written back twice (as constructed, then with count 1 and WRITE set); for a known name the resident inode shared, its count one higher and its record written back with WRITE set |
| FileSystems.FileSystem.Open | FileSystem.java:88-120 | -1 for a bad mode, no table or no free slot, with the file table, directory, device and descriptor table unchanged; once a slot is free: -1 when `falloc` refuses, a wait when it waits, both leaving the descriptor table, the device and the resident inodes as they were; else the fresh entry sits in the lowest free slot ≥ 3, whose index is returned, with the table, directory, device and inode as `Admit` states |
| FileSystems.FileSystem.Place | FileSystem.java:112-119 | the descriptor table changes only in the chosen slot, and only on success; the answer, the entry, and the file table, directory, device and inode afterwards are those of `Open` once a slot is free |
| FileSystems.FileSystem.Format | FileSystem.java:734-744 | `formatDisk`, then 0, or -1 when its progress output divides by zero |
| FileSystems.FileSystem.Size | FileSystem.java:717-732 | -1 for a bad descriptor; a throw (IllegalMonitorStateException) while a writer holds the inode; otherwise the length |
| FileSystems.FileSystem.Seek | FileSystem.java:164-202 | -1 and nothing changed for fd < 3, a bad whence or a bad descriptor; else seekPtr becomes the clamped target, which is returned; the entry's count is kept |
| FileSystems.FileSystem.Delete | FileSystem.java:209-277 | -1 for inumber < 1 or no entry; a wait with DEATH set while opens remain; else the slot cleared, the blocks returned and the entry at inumber - 1 removed, with the in-memory inode itself left as it was |
| FileSystems.FileSystem.DeleteFile | FileSystem.java:283-286 | delete of the number `namei` gives, with the same frame |
| FileSystems.FileSystem.Purge | FileSystem.java:237-277 | after the last close: a throw when `iname` has no row, otherwise the slot it matches is unlinked |
| FileSystems.FileSystem.Unlink | FileSystem.java:239-273 | the slot cleared, the blocks reclaimed; -1, a throw past the table, or the entry removed and 0 |
| FileSystems.FileSystem.MatchingSlot | FileSystem.java:239-240 | the first slot whose row compares equal to the name |
| FileSystems.FileSystem.ClearSlot | FileSystem.java:242-243 | the slot's size and first char become 0, the rest of the row kept |
| FileSystems.FileSystem.Close | FileSystem.java:127-156 | -1 for a bad descriptor; otherwise the inode count drops, then `ffree`: -1 when it finds no entry, a wait while the inode is held, both with the table unchanged; for a live inode the slot is emptied with 0; outside the last close of a dying inode, the directory, the superblock's counters and every other entry and inode are kept, and a successful `ffree` writes the inode back to its slot on disk; the last close of a dying inode keeps the descriptor table |
| FileSystems.FileSystem.CloseEntry | FileSystem.java:139-155 | close of a valid slot: the count drops, then -1 or a wait from `ffree` with the table unchanged, the live case as `CloseLive`, and the dying case keeping the descriptor table; outside that dying case, the same frame and write-back as `Close` |
| FileSystems.FileSystem.CloseDying | FileSystem.java:139-145 | -1 when `ffree` finds no entry and a wait while the inode is held, both with the table unchanged, the count one lower and the directory, superblock, disk and other entries kept; otherwise delete of the number |
| FileSystems.FileSystem.CloseLive | FileSystem.java:150-155 | `ffree`, and the slot emptied with 0 when it succeeds, else -1; the counts of both entries per case, the write-back when `ffree` succeeds, and the directory, superblock and other entries kept |
| FileSystems.FileSystem.Unhold | FileSystem.java:139 | the decrement, then `ffree` (FileTable.java:98-115): false, a wait or true per case, with the table, counts and write-back of each case, and everything else kept |
| FileSystems.FileSystem.FreeAside | FileTable.java:98-115 | `ffree` once the count has dropped: the same cases, with the directory, the superblock, the disk outside the write-back and every other entry and inode kept |
| FileSystems.FileSystem.Read | FileSystem.java:294-451 | -1 for bad arguments (the buffer, the entry's seekPtr and its inode's lock all kept), p ≥ length or a mode other than r/w+; a wait while a writer holds the inode; else the transfer `ReadBody` states, with the lock restored unless the transfer threw; the entry's count and the inode's length, count and block pointers are kept |
| FileSystems.FileSystem.Write | FileSystem.java:458-711 | -1 for bad arguments (the superblock, the device, the entry's seekPtr, the inode's length and block pointers, and its lock all kept), or a mode other than w/w+/a; a wait while the inode is held; else the transfer `WriteBody` states, with the lock restored unless the transfer threw; the superblock's totals and the entry's and inode's counts are kept |

## Source defects

These behaviours of the code as written are modelled as written, and the members named here exhibit them.

- **The inode flag does not round-trip.** The decoder reads `flag` from byte +7 (Inode.java:57-58), which holds `readerCount`. `Inodes.RecordRoundTrip` and `Inodes.FlagRoundTripsOnlyIfEqual` show the flag comes back as the stored readerCount.
- **The first indirect write loses a block.** When `write` starts past the direct pointers on a 0 table entry, it writes the updated pointer table to the new data block (FileSystem.java:532) instead of the indirect block. `FileData.IndirectStartLosesBlock` shows the indirect block keeps the 0 entry, so the block is leaked.
- **Writing at MAX_FILE_SIZE throws.** `FileData.WriteAtMaxThrows` shows that with seekPtr at MAX_FILE_SIZE, `write` reads past the pointer table and throws instead of answering 0.
- **A write ending on a block boundary over-allocates.** `blockCount` counts one block more than the transfer touches (FileSystem.java:489). `FileData.BoundaryAllocates` shows a pointer-less next block gets a block with 0 bytes copied.
- **Length grows on overwrite.** `write` adds every byte written to `length`, even over existing data (FileSystem.java:606, :627, :702). `FileData.WriteInPlace` states that length moves by the buffer's length.
- **The first partial block of a multi-block read does not advance `seekPtr`.** `FileData.ReadBuffer` states the shortfall (FileSystem.java:397-401 vs :443).
- **`iname` is off by one against `namei`.** `iname(i)` returns row i, not row i - 1 (Directory.java:202). `delete` compensates by passing inumber - 1, so deleting inode 1 (the root) throws. `Directories.Directory.Iname` states it.
- **`ifree` leaves stale suffixes.** `ifree` clears only a row's first char (Directory.java:166). `Directories.AllocatedRowMatchesIffClean` shows a shorter name allocated over the stale row no longer matches itself.
- **A zero head pointer is never treated as exhausted.** The test `nextFree >= totalInodes` runs where nextFree is 0 (SuperBlock.java:185). `SuperBlocks.ReturnThenAllocateFromZeroHead` shows a zero head moves to head + 1.
- **`returnBlock` accepts a nonexistent block.** `SuperBlocks.ReturnPastEndIsAccepted` shows `returnBlock(totalBlocks)` succeeds.
- **Inode number totalInodes reaches the free region.** `SuperBlocks.LastInodeNumberInFreeRegion` shows its record can land in the first free block.
- **Seeking past the end stops one byte short.** `FileSystems.SeekPastEndStopsShort` shows the target becomes length - 1. `FileSystems.SeekInEmptyFileGoesNegative` shows it becomes -1 in an empty file.
- **`close` decrements twice.** It decrements the inode count once itself, and `ffree` decrements it again (FileSystem.java:139, FileTable.java:106). `FileSystems.FileSystem.Close` states the first decrement (`e.inode.count == Short(c - 1)` where `ffree` stops), and `FileTables.FileTable.Release` the second.
- **`delete` removes the wrong table entry.** It removes position inumber - 1 of the table, not the entry it found (FileSystem.java:271). `FileSystems.FileSystem.Unlink` states the table afterwards as `RemoveAt(old table, inumber - 1)`.
- **Formatting a small disk throws.** `formatDisk` on fewer than ten blocks divides by zero in its progress output (SuperBlock.java:117). `SuperBlocks.SuperBlock.FormatFreeList` reports the throw exactly when `FormatThrows` holds: some free block exists and totalBlocks / 10 is 0.
- **`size` throws while a write is under way.** `size` calls `waitUntilAccessable` (FileSystem.java:729), which calls `wait()` without holding the inode's monitor (Inode.java:132-136). Whenever WRITE is set this raises IllegalMonitorStateException instead of waiting. `FileSystems.FileSystem.Size` answers `Threw` in that case.
- **An unmatched `finishWrite` locks the inode.** `Inodes.UnmatchedReleaseWriteLocks` shows that `finishWrite` without a matching `waitWrite` sets WRITE.

## Left out

- The block device, `SysLib`'s cache and `Scheduler`/`TCB` are not part of this model.
  - The device is `Device.Disk`, a sequence of 512-byte blocks; `cread` and `rawread` behave alike, as do `cwrite` and `rawwrite`.
  - The calling thread's descriptor table `tcb.ftEnt` is a parameter of the `FileSystem` methods. A null table stands for a thread without a control block.
- Concurrency is left out: `synchronized`, `notify()`, wake-ups and interleavings. Each call runs atomically, and a `wait()` loop whose guard fails is the answer `Blocked`. This includes the expectation that `falloc` be atomic with respect to other threads.
- `Inode.waitUntilAccessable` / `finishAccessable`: only the guard in `size` is modelled, and its failing branch is the throw described under Source defects. `finishAccessable` is a bare `notify()`, which would throw the same way; nothing in the core calls it.
- `SuperBlock.formatDisk`'s progress output (`SysLib.cerr`) is console output. Only the ArithmeticException it raises for fewer than ten blocks is modelled.
- `FileSystem.getDiskDirData` (FileSystem.java:759-833) is startup I/O that loads the directory file. It is not part of this model.
- FileSystems.FileSystem.constructor: takes its superblock, directory and file table ready-made. The wiring to `Disk`, `Scheduler` and `getDiskDirData` at FileSystem.java:67-80 is left out.
- FileSystems.FileSystem.CloseDying: states the answer when `ffree` fails and otherwise hands over to `Delete`. The resulting state is stated by `Delete`'s contract, not repeated.
- FileSystems.FileSystem.Close: for the last close of an inode marked for death, once `ffree` succeeds, the contract states only that the descriptor table is kept. It does not restate `delete`'s answer, the cleared directory slot, the reclaimed blocks or the removed table entry. `Delete`'s contract (`Purged`, `Unlinked`) states those from the state `delete` starts in, and carrying them back across `ffree`'s intermediate state is left unproved.
- FileSystems.FileSystem.CloseEntry: the same dying branch as `Close`, with the same gap.
- FileData.WriteThenRead: proved only for a write over blocks already in place (`InPlace`). A write that allocates, such as the first write into a fresh file, is covered by `WriteKeeps` (only holes are filled) but not by a read-back lemma about its bytes.
- FileData.WriteBody, FileData.WriteLoop, FileData.WriteFirst: on their own they state only the shape of the answer. What they mean is stated by the lemmas beside them (`WriteKeeps`, `WriteInPlace`, `WriteThenRead`).
- FileData.WriteInPlace, FileData.ReadAnswer, FileData.ReadBuffer: stated for a file whose blocks are all in place and whose int arithmetic does not overflow. Outside that, only `WriteKeeps` and the answer's shape are proved.
- Directories.SerializeRoundTrip, Directories.TableRoundTrip: proved for ASCII names. Other chars lose their high byte in `directory2bytes`, as `Directories.CharByteRoundTrip` shows.
- SuperBlocks.FormatInodesLoadInvalid: proved for at most sixteen inodes. With more, block 1 is never written (`SuperBlocks.FormatSkipsFirstInodeBlock`).
- SuperBlocks.Mount: states only that the adopted totalBlocks is the disk size. The full choice between adopting and resetting is its definition, which `SyncThenMount` and `MountTwice` use.
