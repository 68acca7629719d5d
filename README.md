# SSHOS kernel core, modelled in Dafny

This project models the core of the SSHOS teaching kernel and proves properties of the model.

The main part is the kernel's **ext2 file-system driver**:
- the superblock, the group descriptors and the mount sequence;
- the MSB-first block and inode bitmaps with their first-fit allocator and their free;
- the 128-byte inode record and the inode-table arithmetic;
- per-node block I/O over twelve direct pointers plus one singly-indirect pointer;
- the node write loop that allocates blocks as it goes;
- variable-length directory records: build, append, tombstone, forward scan, name lookup and name listing;
- `createInode`, `createDirectoryEntry`, `createNode`, recursive `deleteNode`, and the path walk `Ext2::find`.

The disk is a byte array behind a small device class (`Device.Disk`), and the bitmaps are per-group byte arrays. The driver's classes become the Dafny classes `FileSystem.Ext2` and `FileSystem.Node`. Each of their methods is proved against a pure value-level definition in the modules `Ext2Layout`, `Ext2Bitmap`, `Ext2Dir`, `Ext2Node`, `Ext2Ops`, `Ext2Data` and `Ext2Tree`, and the lemmas in those modules state what the driver promises.

The smaller parts are:
- the C-string helpers `strlen`, `isdigit`, `streq`, `strcpy` and the variadic `min` (`LibK`, `CString`);
- the intrusive doubly-linked list (`LinkedList`);
- the VMM region list, a first-fit address allocator (`VmmList`);
- the `OpenFile` offset bookkeeping (`UserFiles`);
- the per-process descriptor, semaphore and child tables, the path walk and `touch` of the system-call layer (`Sys`);
- the shell's line-editing buffer (`Shell`);
- command splitting and the `color` built-in (`Commands`);
- VGA text-mode offsets and screen writes (`Video`);
- IDT gate encoding, as in section 6.11 of the Intel 64 and IA-32 Architectures Software Developer's Manual, Volume 3A (`Idt`);
- the `echo` user program (`Echo`).

C's `uint32_t` wrap-around is written out with `Bytes.U32`, casts to `int` with `Bytes.I32`, and C's truncating division with `Bytes.CDiv`. A source `panic` or failed `ASSERT` is a `panicked` result (the kernel stops there). Bytes the source leaves uninitialised are a `junk` parameter, so every result holds for any such contents.

## Model

| member | source | states |
|---|---|---|
| Bytes.U32 | kernel/ext2.h:104-112 | the 32-bit wrap of any integer: below 2^32, the identity on 32-bit values, congruent to its argument |
| Bytes.I32 | kernel/ext2.cc:49-74 | the `int` view of a 32-bit word: wraps back to the same word, identity below 2^31 |
| Bytes.CDiv | kernel/video.cc:44-46 | C division truncates toward zero: the remainder has the sign of the dividend and is smaller than the divisor |
| Bytes.LE32Bytes32 | kernel/ext2.cc:107-133 | a 32-bit little-endian field written into a buffer reads back as the wrapped value |
| Bytes.LE16Bytes16 | kernel/ext2.cc:135-167 | a 16-bit field written into a buffer reads back as the value mod 2^16 |
| Bytes.SpliceAdjacent | kernel/ext2.h:114-124 | writing a then b right after it equals writing a + b |
| CString.Len | kernel/libk.cc:4-8 | the index of the first NUL: that byte is NUL and none before it is |
| CString.Content | kernel/libk.cc:14-24 | the bytes before the first NUL hold no NUL and, with a NUL appended, are the string's prefix |
| CString.Make | kernel/ext2.cc:187-197 | a NUL-free text with a NUL appended is a C string of that length and content |
| CString.SplitCount | kernel/commands.cc:20-29 | splitting at a separator gives one more piece than there are separators |
| CString.SplitPiecesFree | kernel/commands.cc:42-53 | no piece of a split holds the separator |
| CString.JoinSplit | kernel/commands.cc:42-53 | joining the pieces of a split with the separator gives back the text |
| CString.SplitJoin | kernel/commands.cc:42-53 | splitting a join of separator-free pieces gives back the pieces |
| CString.SplitAppend | kernel/commands.cc:42-53 | the split of u + sep + w is the split of u followed by the split of w |
| LibK.StrLen | kernel/libk.cc:4-8 | returns the number of bytes before the first NUL |
| LibK.IsDigitDigits | kernel/libk.cc:10-12 | `isdigit(c)` is 1 exactly for the ten ASCII digits, else 0 |
| LibK.StrEq | kernel/libk.cc:14-24 | true exactly when the two strings have the same content up to the first NUL |
| LibK.ContentsDiffer | kernel/libk.cc:14-24 | a differing byte at or before both NULs makes the contents differ (the loop's false exit) |
| LibK.ContentsAgree | kernel/libk.cc:14-24 | agreement up to a shared NUL makes the contents equal (the loop's true exit) |
| LibK.SameContentSameBytes | kernel/libk.cc:14-24 | equal contents agree byte by byte up to and including the NUL, so `streq` is symmetric |
| LibK.StrCpy | kernel/libk.cc:26-35 | copies the content, writes the NUL after it, returns the length, and leaves every other byte of `dest` unchanged |
| LibK.MinBelow | kernel/libk.h:17-26 | the result of `min` is at most every argument |
| LibK.MinIsArgument | kernel/libk.h:17-26 | the result of `min` is one of the arguments |
| Device.Read | kernel/ext2.h:179-190 | reads exactly n bytes; inside the disk they are the disk's bytes |
| Device.WriteCount | kernel/ext2.h:211-217 | a device write transfers at most the bytes asked for, never crosses the end of its 512-byte sector, and at least one byte when any are asked for |
| Device.StoreAdjacent | kernel/ext2.h:114-124 | two adjacent partial writes equal one write of both parts |
| Device.SpreadStores | kernel/ext2.h:114-124 | below 4 GiB, the `write_all` loop of partial writes stores exactly `src` at `off` |
| Device.SpreadRead | kernel/ext2.h:114-124 | after `write_all`, reading the same range gives back `src` |
| Device.Disk.ReadAll | kernel/ext2.h:179-190 | returns the bytes `Read` defines, changing nothing |
| Device.Disk.Write | kernel/ext2.h:114-124 | returns the transferred count `WriteCount` and stores that prefix of `src` at `addr` |
| Ext2Layout.BlockSizePower | kernel/ext2.h:80-83 | for shifts up to 21 the block size is 1024 * 2^shift, at most 2^31 |
| Ext2Layout.ShiftInRange | kernel/ext2.h:80-83 | for every shift below 32 the 32-bit block size is the wrapped 1024 * 2^shift |
| Ext2Layout.BlockSizeSectors | kernel/ext2.h:80-83 | every block size is a whole number of 512-byte sectors |
| Ext2Layout.DivisionRoundUpCeil | kernel/ext2.cc:3-5 | without wrap-around, `divisionRoundUp` is the ceiling of n / d |
| Ext2Layout.DecodeSuper | kernel/ext2.h:14-24 | every decoded superblock field is a 32-bit word |
| Ext2Layout.DecodeGroups | kernel/ext2.h:26-33 | the n descriptors are decoded one per 32-byte slot |
| Ext2Layout.TableAddress | kernel/ext2.cc:27 | the group table is at byte 2048 for 1024-byte blocks, else at byte `blockSize` |
| Ext2Layout.InodeOffsetPlain | kernel/ext2.h:104-112 | inode n is at `table[(n-1)/ipg].inodeTable * blockSize + ((n-1) % ipg) * 128` |
| Ext2Layout.InodeRecordsApart | kernel/ext2.h:104-112 | two inodes of one group occupy disjoint 128-byte records |
| Ext2Layout.SetPointerFields | kernel/ext2.h:208-210 | storing block pointer i changes only pointer i |
| Ext2Layout.SetSizeFields | kernel/ext2.h:224-227 | storing the size changes only the size |
| Ext2Layout.KindsExclusive | kernel/ext2.h:308-325 | `is_dir`, `is_file` and `is_symlink` hold exactly for type nibbles 4, 8 and 10 of `mode & 0xF000`, and at most one holds |
| Ext2Bitmap.WithoutWithBit | kernel/ext2.cc:87-97 | clearing a bit that was just set restores the byte |
| Ext2Bitmap.MarkUsed | kernel/ext2.cc:57-67 | marking structure k sets its MSB-first bit and no other |
| Ext2Bitmap.UnmarkUsed | kernel/ext2.cc:87-97 | unmarking structure k clears its MSB-first bit and no other |
| Ext2Bitmap.FreeUsed | kernel/ext2.cc:87-97 | freeing number n clears bit `n % perGroup` of map `n / perGroup` and leaves every other bit of every map unchanged |
| Ext2Bitmap.UnmarkMark | kernel/ext2.cc:87-97 | unmarking what was just marked restores the bitmap |
| Ext2Bitmap.FirstZeroMeaning | kernel/ext2.cc:53-67 | the byte-then-bit scan from bit k finds the lowest free structure at or after k, or reports that none is free |
| Ext2Bitmap.FirstFree | kernel/ext2.cc:53-67 | the group scan finds the first group holding a free structure and skips only full groups |
| Ext2Bitmap.AllocateFirstFit | kernel/ext2.cc:49-74 | `findAvailableStructure` marks exactly the first free structure, in group, byte and MSB-first bit order, and returns its number; when all are taken it returns -1 and changes nothing |
| Ext2Bitmap.AllocateFails | kernel/ext2.cc:49-74 | the result is -1 exactly when every structure of every group is taken |
| Ext2Bitmap.NumberBelow | kernel/ext2.cc:62 | the returned number lies below `start + groups * perGroup`, and equals `start + group * perGroup + index` when perGroup is a multiple of 8 |
| Ext2Bitmap.AllocatedBelow | kernel/ext2.cc:49-74 | an allocated number lies within `start + groups * perGroup` |
| Ext2Bitmap.FreeAllocated | kernel/ext2.cc:76-105 | when perGroup is a multiple of 8, freeing the number just allocated restores every bitmap |
| Ext2Bitmap.AllocateIncreasing | kernel/ext2.cc:53-67 | of two successive successful allocations the second returns a strictly greater number |
| Ext2Bitmap.SlotOrder | kernel/ext2.cc:53-67 | a later slot has a greater number |
| Ext2Dir.RecLen | kernel/ext2.cc:135-142 | the record length is 8 + nameLen rounded up to a multiple of 4 |
| Ext2Dir.Record | kernel/ext2.cc:135-167 | a record has exactly that length |
| Ext2Dir.RecordFields | kernel/ext2.cc:143-160 | the record holds inode at byte 0, recLen at 4, nameLen at 6, type at 7, the name at 8 |
| Ext2Dir.Entries | kernel/ext2.h:327-349 | the live records in on-disk order, each with a nonzero 32-bit inode and a name of at most 255 bytes |
| Ext2Dir.LiveEntries | kernel/ext2.h:378-397 | `entry_count` counts exactly the records `entries` visits |
| Ext2Dir.TiledChain | kernel/ext2.h:327-349 | a directory tiled by well-formed records can be scanned to its end |
| Ext2Dir.EntriesLocal | kernel/ext2.h:327-349 | the scan from an offset depends only on the bytes from that offset on |
| Ext2Dir.AppendEntries | kernel/ext2.cc:166 | appending a record at the directory's size adds its entry last and keeps all others |
| Ext2Dir.TombstoneFields | kernel/ext2.h:245-258 | the tombstone zeros inode, nameLen, type and name and keeps recLen |
| Ext2Dir.FirstWith | kernel/ext2.h:240-265 | a found offset holds a record header whose inode is t |
| Ext2Dir.FirstIndex | kernel/ext2.h:240-265 | the first entry whose inode is t, or none |
| Ext2Dir.RemoveFirst | kernel/ext2.h:233-266 | the entry list without its first entry for t, and unchanged when t is absent |
| Ext2Dir.DeleteEntry | kernel/ext2.h:233-266 | tombstoning the first record for t removes exactly that entry from the listing, leaves the directory tiled, and drops the live count by one; t is found exactly when it is listed |
| Ext2Dir.EntryName | kernel/ext2.h:340-345 | the name cut at its first NUL: NUL-free and no longer than the stored name |
| Ext2Dir.LastMatch | kernel/ext2.cc:262-272 | the last entry whose name equals the key, or none |
| Ext2Dir.FindInMeaning | kernel/ext2.cc:262-272 | `Node::find` returns 0 exactly when no entry matches, and otherwise the inode of the last matching entry |
| Ext2Dir.FindAppended | kernel/ext2.cc:262-272 | the entry appended last is what a lookup of its name finds |
| Ext2Dir.NamesCount | kernel/ext2.cc:275-286 | the name list ends in NUL and holds one NUL per entry plus the final one |
| Ext2Dir.NameListCount | kernel/ext2.cc:279-282 | the concatenated names hold one NUL per entry |
| Ext2Dir.StrEquals | kernel/ext2.cc:7-15 | `strEquals` is true exactly when the C string's content equals the first `curNameLength` bytes |
| Ext2Node.BlockIndex | kernel/ext2.h:203-204 | the block a byte offset falls in |
| Ext2Node.BlockAt | kernel/ext2.h:179-190 | the block number read for block i (direct pointer i below 12, else entry i-12 of the block pointer 12 names) is a 32-bit word |
| Ext2Node.ReadBlock | kernel/ext2.h:179-190 | `read_block` yields one whole block |
| Ext2Node.Content | kernel/ext2.h:173-175 | the file's bytes, as many as its 32-bit size |
| Ext2Node.ContentBlocks | kernel/ext2.h:179-190 | byte i * bs + j of the content is byte j of block i |
| Ext2Node.Window | kernel/ext2.h:173-190 | a read returns at most n bytes: the content slice when inside, nothing from the end on |
| Ext2Node.Claim | kernel/ext2.h:208-210 | claiming a block pointer keeps the disk, the bitmap count and the image well-shaped |
| Ext2Node.Took | kernel/ext2.h:214-217 | each pass of the write loop transfers at least one byte and no more than remain |
| Ext2Node.WriteLoopStep | kernel/ext2.h:202-221 | the write loop is one pass followed by the loop from the advanced 32-bit offset |
| Ext2Node.ClaimKeeps | kernel/ext2.h:208-210 | a pointer that is already set is left alone |
| Ext2Node.StepInBlock | kernel/ext2.h:211-217 | one pass stays inside the block it started in |
| Ext2Node.WriteLoopKeeps | kernel/ext2.h:200-222 | the loop never changes a set pointer, the size, mode or links |
| Ext2Node.WriteLoopPanics | kernel/ext2.h:202-221 | the loop panics exactly when the last byte falls at block index 12 or beyond |
| Ext2Node.WriteLoopAllocatesNothing | kernel/ext2.h:208-210 | when every touched pointer is set, the bitmaps and the record do not change |
| Ext2Node.ResizedSize | kernel/ext2.h:224-227 | the new size is the larger of the old size and `off + n`; the pointers, mode and links are kept |
| Ext2Node.NodeWritePanics | kernel/ext2.h:194-231 | `write_all` panics exactly when `off` is past the size or a byte would need block index 12 or beyond |
| Ext2Node.NodeWriteRecord | kernel/ext2.h:194-231 | after `write_all` the size is the maximum of the old size and `off + n`, mode and links are kept, every set direct pointer and every indirect pointer is kept, and the record is written back at its inode-table offset |
| Ext2Node.NodeWriteAllocatesNothing | kernel/ext2.h:208-210 | writing inside mapped blocks allocates nothing |
| Ext2Node.NodeWriteAlike | kernel/ext2.h:194-231 | a write keeps the number and sizes of the block bitmaps |
| Ext2Ops.NewInodeFields | kernel/ext2.cc:107-133 | the new record has the type, size 0, one link and fifteen zero pointers |
| Ext2Ops.NewInodeLeaves | kernel/ext2.cc:112-131 | every other byte of the new record is the uninitialised buffer's |
| Ext2Ops.UnlinkAt | kernel/ext2.h:233-266 | `deleteFromDirectory` writes a tombstone of the kept record length at the first record for t, and writes nothing when there is none |
| Ext2Ops.UnlinkAlike | kernel/ext2.h:233-266 | the deletion keeps the bitmap shapes |
| Ext2Ops.ReleaseStep | kernel/ext2.h:292-299 | the free loop frees pointer i and goes on at i + 1 |
| Ext2Ops.ReleaseDone | kernel/ext2.h:292-299 | the free loop stops at the first zero pointer or after fifteen |
| Ext2Ops.ReleaseClears | kernel/ext2.h:292-299 | the free loop clears exactly the bits of the blocks named by the pointers before the first 0 (at most fifteen), and every other block bit keeps its value |
| Ext2Ops.Freed | kernel/ext2.h:291-299 | freeing the blocks of a node keeps the number and sizes of the block bitmaps |
| Ext2Ops.FreedClears | kernel/ext2.h:291-299 | after the block loop a bit is set iff it was set before and is not one of the node's listed blocks, the blocks counting only when the node is not a symlink shorter than 60 bytes |
| Ext2Ops.DeletionStart | kernel/ext2.h:269-305 | a deletion that did not run out of its bound has fuel left, and a non-empty directory holds at least one record header |
| Ext2Ops.DeletionLeaf | kernel/ext2.h:269-288 | a node whose first entry is empty or itself is removed directly |
| Ext2Ops.DeletionChild | kernel/ext2.h:276-286 | a directory whose first entry names another inode deletes that child first, with itself as parent |
| Ext2Ops.DeletionAfter | kernel/ext2.h:276-305 | after the child is gone the directory itself is removed; a child's panic is the directory's panic |
| Ext2Data.PosDistinct | kernel/ext2.h:200-222 | distinct offsets of a node with distinct direct blocks live at distinct disk bytes |
| Ext2Data.ContentPos | kernel/ext2.h:179-190 | content byte j is the disk byte at its block's position |
| Ext2Data.AllocateReserved | kernel/ext2.cc:76-79 | while block 0 is marked used, the block allocator never returns 0 and block 0 stays marked |
| Ext2Data.ScatterJoin | kernel/ext2.h:200-222 | writing a then b at the following offsets equals writing a + b |
| Ext2Data.ScatterMeaning | kernel/ext2.h:200-222 | a scattered write puts each source byte at its content position and leaves every other disk byte alone |
| Ext2Data.StepStores | kernel/ext2.h:211-217 | one pass writes at `pointer * blockSize + off % blockSize` |
| Ext2Data.WriteLoopScatters | kernel/ext2.h:200-222 | the whole loop writes exactly the scattered bytes |
| Ext2Data.WriteBack | kernel/ext2.h:224-230 | after the loop the grown record is stored at its inode-table offset |
| Ext2Data.NodeWriteData | kernel/ext2.h:194-231 | read-after-write: after `write_all`, bytes off to off + n of the content are `src`, every other old byte is unchanged, and the length is the new size |
| Ext2Data.NodeWriteAppends | kernel/ext2.h:194-231 | a write at the current size makes the content the old content followed by `src` |
| Ext2Data.NodeWriteOver | kernel/ext2.h:194-231 | a write inside the data keeps the size, allocates no block, and makes the content the old content with `src` spliced in at the offset |
| Ext2Tree.TakenLocated | kernel/ext2.cc:82-85 | an allocated inode number has a record inside the inode tables |
| Ext2Tree.SeededNode | kernel/ext2.cc:170-186 | the new node reads back as a fresh inode of the right type: type 1 is a file (0x8000), 7 a symlink (0xA000), anything else a directory (0x4000) |
| Ext2Tree.DirRecordAt | kernel/ext2.cc:135-167 | the directory record buffer holds the inode, recLen, nameLen, type and name at their offsets and junk in the padding |
| Ext2Tree.EnteredEntries | kernel/ext2.cc:135-167 | `createDirectoryEntry` adds (inode, name) as the last entry of the directory and keeps every other entry |
| Ext2Tree.EnteredListing | kernel/ext2.cc:166 | the same, once the append's content is known |
| Ext2Tree.AppendListing | kernel/ext2.cc:166 | an appended record becomes the last listed entry |
| Ext2Tree.EmptyListing | kernel/ext2.cc:187-197 | an empty directory lists nothing |
| Ext2Tree.DotsEntries | kernel/ext2.cc:187-197 | a new directory lists "." for itself and then ".." for its parent |
| Ext2Tree.UnlinkDeletes | kernel/ext2.h:233-266 | for t ≠ 0 and a tombstone write placed as `Laid` says, `deleteFromDirectory(t)` on a well-formed directory does not panic. The listing becomes the old listing with its first entry for t removed, with every other entry and the size kept and no block allocated; with no entry for t nothing is written |
| Ext2Tree.RemoveDetaches | kernel/ext2.h:291-304 | removing a node deletes its first entry from the parent's listing, keeping the others and the parent's size. It clears exactly the node's inode bit and exactly the bits of its freed blocks; every other bit is unchanged |
| Ext2Tree.Prior | kernel/ext2.h:269-305 | a completed deletion is the removal of the node, from the given volume when the first record names 0 or the node itself, else from the state the child's deletion left |
| Ext2Tree.DeletionDetaches | kernel/ext2.h:269-305 | a completed `deleteNode` has the effect `RemoveDetaches` states: one parent entry gone, the size kept, exactly the node's inode bit and block bits cleared |
| Ext2Tree.SkipSlashes | kernel/ext2.cc:234 | the path walk skips a whole run of '/' |
| Ext2Tree.PartEnd | kernel/ext2.cc:239-246 | a component runs to the next '/' or NUL |
| Ext2Tree.ResolveSkips | kernel/ext2.cc:234 | leading slashes do not change the walk |
| Ext2Tree.ResolveEmpty | kernel/ext2.cc:235-237 | an empty rest of path yields the current node (null when there is none) |
| Ext2Tree.ResolveWalks | kernel/ext2.cc:238-254 | a component is looked up with `Node::find`; a missing one yields null, a found one continues the walk from that node |
| Ext2Tree.ResolvePanics | kernel/ext2.cc:238-254 | a component over 256 bytes, or a walk through a non-directory, panics |
| Ext2Tree.PathParts | kernel/ext2.cc:234-247 | a run of slashes then a name splits into exactly that name |
| Ext2Tree.ResolveAppended | kernel/ext2.cc:170-200 | after a node's entry is appended to a directory, `find` of its name from that directory locates that node |
| FileSystem.Bits | kernel/ext2.cc:35-43 | the bitmap bytes are kept as they are on disk |
| FileSystem.Ext2.constructor | kernel/ext2.cc:17-47 | mount reads the superblock at 1024, sets the block size, the group count `divisionRoundUp(totalBlocks, blocksPerGroup)`, the descriptor table from `TableAddress`, one inode and one block bitmap per group, and the root node 2 |
| FileSystem.Ext2.FindAvailableStructure | kernel/ext2.cc:49-74 | the bitmaps become `Allocate`'s and the result is its number or -1 |
| FileSystem.Ext2.ScanBitmap | kernel/ext2.cc:55-66 | the byte-and-bit scan of one group finds `FirstZero` |
| FileSystem.Ext2.FindAvailableBlock | kernel/ext2.cc:76-79 | block allocation numbers from 0 |
| FileSystem.Ext2.FindAvailableInode | kernel/ext2.cc:82-85 | inode allocation numbers from 1 |
| FileSystem.Ext2.FreeStructure | kernel/ext2.cc:87-97 | clears exactly bit `n % perGroup` of group `n / perGroup` |
| FileSystem.Ext2.FreeBlock | kernel/ext2.cc:99-101 | frees block n |
| FileSystem.Ext2.FreeInode | kernel/ext2.cc:103-105 | frees inode n as structure n - 1, changing nothing else |
| FileSystem.Ext2.WriteAll | kernel/ext2.h:114-124 | for a count below 2^31 stores `src` at `off` through the partial-write loop; a larger count, negative as `int`, writes nothing |
| FileSystem.Ext2.CreateInode | kernel/ext2.cc:107-133 | panics exactly for a number below 1, otherwise writes the new record at its table offset |
| FileSystem.Ext2.CreateNode | kernel/ext2.cc:170-200 | returns false with nothing changed exactly when no inode is free; otherwise allocates the inode, writes its record, enters it in `dir`, and gives a new directory its two entries |
| FileSystem.Ext2.Find | kernel/ext2.cc:229-260 | the result is the node the pure walk `Resolve` finds, null when it finds none, and a panic exactly when the walk panics |
| FileSystem.Ext2.GetNode | kernel/ext2.cc:202-221 | returns node n with its 128-byte record and its type |
| FileSystem.Node.constructor | kernel/ext2.h:150-163 | reads exactly the 128 bytes at inode n's table offset and takes the type from `mode & 0xF000` |
| FileSystem.Node.ReadBlock | kernel/ext2.h:179-190 | reads block i as `read_block` does, indirect block included |
| FileSystem.Node.ReadAll | kernel/ext2.h:173-190 | reads the window of the content, clamped to the size |
| FileSystem.Node.WriteAll | kernel/ext2.h:194-231 | panics exactly when `NodeWrite` does, else leaves the node and disk in `NodeWrite`'s state |
| FileSystem.Node.WriteBlocks | kernel/ext2.h:200-222 | the block loop reaches `WriteLoop`'s state |
| FileSystem.Node.Resize | kernel/ext2.h:224-227 | the record gets the new size |
| FileSystem.Node.EntryList | kernel/ext2.h:327-349 | `entries` visits exactly `Entries` in order |
| FileSystem.Node.EntryCount | kernel/ext2.h:378-397 | `entry_count` is the number of live records, the length of the listing |
| FileSystem.Node.Find | kernel/ext2.cc:262-272 | the inode of the last entry named `name`, or 0 |
| FileSystem.Node.GetEntryNames | kernel/ext2.cc:275-286 | the buffer receives each entry's name with its NUL and one final NUL, nothing after |
| FileSystem.Node.GetSymbol | kernel/ext2.h:358-368 | above 60 bytes the target is the content; otherwise the pointer bytes followed by a NUL |
| FileSystem.Node.DeleteFromDirectory | kernel/ext2.h:233-266 | the directory ends as `Unlink` says, or panics when its write does; `Ext2Tree.UnlinkDeletes` proves that this removes the first entry for t and keeps the size |
| FileSystem.Node.LocateRecord | kernel/ext2.h:240-265 | finds the first record for t and its length |
| FileSystem.Node.DeleteNode | kernel/ext2.h:269-305 | the recursive deletion ends in `Deletion`'s outcome; `Ext2Tree.DeletionDetaches` proves what that outcome does to the parent's listing and to the bitmaps |
| FileSystem.Node.FirstNumber | kernel/ext2.h:273-286 | reads the inode of the directory's first record only |
| FileSystem.Node.FreeOwnBlocks | kernel/ext2.h:291-299 | frees the node's blocks as `Freed` says |
| FileSystem.ReleaseBlocks | kernel/ext2.h:292-299 | the free loop reaches `Release`'s bitmaps |
| FileSystem.WalkEntries | kernel/ext2.h:327-349 | the scan loop collects exactly `Entries` |
| FileSystem.PutNames | kernel/ext2.cc:278-284 | writes `Names` and nothing past it |
| FileSystem.CountUsed | kernel/ext2.h:378-397 | counts the records with a nonzero inode |
| FileSystem.FindRecord | kernel/ext2.h:240-265 | stops at the first record for t |
| FileSystem.BuildRecord | kernel/ext2.cc:135-165 | the record buffer equals `DirRecord` |
| FileSystem.CreateDirectoryEntry | kernel/ext2.cc:135-167 | appends the record at the directory's size; the state is `Entered`'s, or a panic exactly when that write panics |
| FileSystem.AddDots | kernel/ext2.cc:187-197 | writes "." and ".." as `Dots` says |
| FileSystem.CopyPart | kernel/ext2.cc:238-247 | panics exactly for a component over 256 bytes, else copies it as a C string |
| FileSystem.BuildTombstone | kernel/ext2.h:245-258 | the tombstone buffer equals `Tombstone` |
| Commands.NameLength | kernel/commands.cc:11-18 | the program name runs to the first space or NUL |
| Commands.Words | kernel/commands.cc:9-53 | the program name is the first word |
| Commands.WordsCount | kernel/commands.cc:20-29 | the number of words is `argc`: one plus the spaces after the name |
| Commands.WordsClean | kernel/commands.cc:42-53 | no word holds a space or NUL |
| Commands.WordsJoin | kernel/commands.cc:34-53 | the words joined by spaces give back the command |
| Commands.SlotsAsWrittenWithSpace | kernel/commands.cc:42-53 | with a space after the name, the split loop as written fills exactly `argc` slots |
| Commands.SlotsAsWrittenOverflow | kernel/commands.cc:42-53 | with no space after the name, the loop as written starts past the NUL and fills more slots than `argc` |
| Commands.SplitCommand | kernel/commands.cc:9-53 | with the split guarded (see Findings): the program name, `argc`, and `argv[i]` as the words with their NULs |
| Commands.ProgramNameSize | kernel/commands.cc:11-18 | the name loop stops at the name's end |
| Commands.CountArgs | kernel/commands.cc:20-29 | the counting loop yields `argc` |
| Commands.ScanArgsSplit | kernel/commands.cc:42-53 | the split loop's scan is a split of the rest at spaces |
| Commands.SplitArgs | kernel/commands.cc:42-53 | fills `argv[1..]` with the words after the name, each NUL-terminated |
| Commands.Dispatch | kernel/commands.cc:57-78 | true only for `color default` (theme 0x0F) and `color windows` (0x1F); `color` with anything else prints usage; other programs return false; the theme changes only on success |
| Commands.Execute | kernel/commands.cc:9-79 | the outcome is `Dispatch` of the command's words |
| Commands.PickTheme | kernel/commands.cc:62-76 | recognises exactly "default" and "windows" |
| Echo.ArgsTextLength | volume0.dir/usr/lib/echo.c:5-18 | the buffer text is as long as the counted length |
| Echo.ArgsTextSplits | volume0.dir/usr/lib/echo.c:23-33 | for arguments without spaces, splitting the text at spaces gives the arguments back in order, then the empty piece after the last space |
| Echo.Echo | volume0.dir/usr/lib/echo.c:5-36 | `len` is the text length plus one; the buffer is each argument after the program name followed by a space, then a newline, then a NUL; exactly `len` bytes are written |
| Echo.FillArgs | volume0.dir/usr/lib/echo.c:23-33 | the fill loop writes each argument followed by a space |
| Echo.MeasureArgs | volume0.dir/usr/lib/echo.c:5-18 | the counting loops compute the argument length |
| Echo.ArgsLengthMonotone | volume0.dir/usr/lib/echo.c:5-18 | a prefix of the arguments never measures more |
| Video.RowOfOffset | kernel/video.cc:44-50 | the row of `get_offset(col, row)` is row, and its column is col |
| Video.NewLineNextRow | kernel/video.cc:52-54 | a new line goes to column 0 of the next row, strictly ahead and at most one row on |
| Video.SetChar | kernel/video.cc:32-36 | writes the character and the theme and no other byte |
| Video.ClearChar | kernel/video.cc:38-42 | zeros exactly the two bytes of the cell |
| Video.ForwardCopyMoves | kernel/video.cc:56-61 | a forward copy between non-overlapping or downward ranges moves the bytes and leaves the rest |
| Video.MemoryCopy | kernel/video.cc:56-61 | the copy loop equals `ForwardCopy` |
| Video.ScrollLn | kernel/video.cc:63-75 | rows 1-24 move up one row, the last row becomes spaces in the theme, and the result is `offset - 160` |
| Video.ClearScreen | kernel/video.cc:77-82 | every cell becomes a space in the theme, nothing past the screen changes |
| Idt.InterruptGateDecodes | kernel/idt.cc:43-49 | the two words written decode to a present 32-bit interrupt gate at DPL 0 with the handler and selector |
| Idt.TrapGateDecodes | kernel/idt.cc:51-57 | the two words decode to a present 32-bit trap gate with the given DPL |
| Idt.OffsetHalves | kernel/idt.cc:47-48 | the handler is recovered from the two words' halves |
| Idt.Interrupt | kernel/idt.cc:43-49 | writes `idt[2i]` and `idt[2i+1]` as the interrupt gate and nothing else |
| Idt.Trap | kernel/idt.cc:51-57 | writes `idt[2i]` and `idt[2i+1]` as the trap gate and nothing else |
| UserFiles.Request | kernel/user_files.h:21 | the request is `min(size - offset, n)` in 32-bit arithmetic |
| UserFiles.RequestInside | kernel/user_files.h:21 | inside the file the request never reads past the end |
| UserFiles.RequestPastEnd | kernel/user_files.h:21 | past the end the 32-bit difference wraps: the request is `min(2^32 + size - offset, n)`, never 0 for a non-zero n |
| UserFiles.OpenFile.constructor | kernel/user_files.h:14 | a new open file has offset 0 |
| UserFiles.OpenFile.Read | kernel/user_files.h:16-25 | an unreadable file returns -1 and keeps its offset; otherwise the offset advances by exactly the count `read_all` returns, which is returned |
| UserFiles.OpenFile.Write | kernel/user_files.h:27-37 | -1 when not writeable, otherwise n |
| LinkedList.List.constructor | kernel/linked_list.h:14 | a new list is empty |
| LinkedList.List.AddFirst | kernel/linked_list.h:17-37 | the element becomes the head, followed by the old list |
| LinkedList.List.AddAfter | kernel/linked_list.h:39-63 | the element is inserted right after c |
| LinkedList.List.AddBefore | kernel/linked_list.h:65-91 | the element is inserted right before c, becoming `first` when c was the head |
| LinkedList.List.Remove | kernel/linked_list.h:93-129 | the element leaves the list in all four cases, the order of the rest is kept |
| LinkedList.List.GetFirst | kernel/linked_list.h:144-146 | the head, null exactly for an empty list |
| LinkedList.List.GetSize | kernel/linked_list.h:148-150 | the number of elements |
| LinkedList.InsertAt | kernel/linked_list.h:39-91 | an insertion shifts later elements by one and keeps the elements distinct |
| LinkedList.RemoveAt | kernel/linked_list.h:93-129 | a removal shifts later elements back by one and keeps them distinct |
| VmmList.InRangeHalfOpen | kernel/VMMLinkedList.h:69-71 | `inRange` is the half-open test `lo <= va < lo + sz` |
| VmmList.FitFrom | kernel/VMMLinkedList.h:55-67 | the first region, from k, followed by room for sz before the next region, or the tail |
| VmmList.AddedSorted | kernel/VMMLinkedList.h:55-67 | a sorted non-overlapping list stays so after `addNode` |
| VmmList.AddedKeepsOrder | kernel/VMMLinkedList.h:55-67 | the new region starts at the chosen region's end, and the old regions keep their order |
| VmmList.FitFromAsWritten | kernel/VMMLinkedList.h:57-58 | the fit test as written, with the 32-bit sum |
| VmmList.AsWrittenAgrees | kernel/VMMLinkedList.h:57-58 | without wrap-around the two fit tests agree |
| VmmList.WrapOverlaps | kernel/VMMLinkedList.h:57-58 | a huge size wraps the sum and is placed overlapping the next region |
| VmmList.Containing | kernel/VMMLinkedList.h:73-80 | the first region containing va, or none |
| VmmList.StartingAt | kernel/VMMLinkedList.h:82-101 | the first region starting at va |
| VmmList.InitialSorted | kernel/VMMLinkedList.h:39-44 | the fresh list is sorted |
| VmmList.List.constructor | kernel/VMMLinkedList.h:39-44 | the dummy region, then the ioAPIC page, then the localAPIC page |
| VmmList.List.AddNode | kernel/VMMLinkedList.h:55-67 | with the sum unbounded (see Findings), the regions become `Added` and the new node is in the list |
| VmmList.List.FindFit | kernel/VMMLinkedList.h:57-61 | the walk stops at `FitFrom` |
| VmmList.List.GetNode | kernel/VMMLinkedList.h:73-80 | the first node containing va, or null |
| VmmList.List.RemoveNode | kernel/VMMLinkedList.h:82-101 | exactly the node starting at va is unlinked and the rest keep their order |
| Shell.BackspaceEffect | kernel/shell.cc:52-59 | at the command start nothing changes and false is returned; otherwise the byte before the cursor is zeroed, the cursor steps back, and true is returned |
| Shell.ReturnEffect | kernel/shell.cc:61-80 | a newline only for a non-empty command, then the command, then the new prompt; the cursor grows by `cmd_size + 7` plus one for the newline; the history is untouched |
| Shell.KeyKeepsHistory | kernel/shell.cc:52-97 | every key keeps `curr_cmd_start <= cursor` and no byte before the command start changes |
| Shell.KeyKeepsClean | kernel/shell.cc:52-97 | every key keeps the bytes past the cursor zero |
| Shell.BackspaceUndoesNormal | kernel/shell.cc:52-86 | a backspace after a normal key restores the line |
| Shell.StartedShowsPrompt | kernel/shell.cc:10-12 | `start` shows "root:/" with the cursor and command start at 6 |
| Shell.EchoCommand | kernel/shell.cc:61-80 | the copy loops produce `AfterReturn`'s buffer and cursor |
| Shell.Shell.constructor | kernel/shell.h:8-10 | an empty buffer with cursor and command start 0 |
| Shell.Shell.Start | kernel/shell.cc:9-12 | the state becomes `Started` |
| Shell.Shell.HandleBackspace | kernel/shell.cc:52-59 | the state and result are `AfterBackspace`'s |
| Shell.Shell.HandleReturn | kernel/shell.cc:61-80 | the state is `AfterReturn`'s and the result true |
| Shell.Shell.HandleNormal | kernel/shell.cc:82-86 | the key is stored at the cursor, the cursor advances, true |
| Shell.Shell.HandleKey | kernel/shell.cc:88-97 | dispatches backspace, return and other keys as `AfterKey` says |
| Sys.IsUserAgrees | kernel/sys.cc:22-38 | without wrap-around the two tests agree |
| Sys.IsUserSafe | kernel/sys.cc:22-38 | every accepted range lies in user space and misses both APIC pages |
| Sys.IsUserWraps | kernel/sys.cc:22-38 | a range ending past 2^32 wraps and is accepted as written |
| Sys.CloseNegativeId | kernel/sys.cc:299-321 | `close(-1)` as written reaches child slot -11 |
| Sys.CloseSlot | kernel/sys.cc:299-346 | ids 0-9 are file slots, 10-19 child slots, 20-29 semaphore slots, the rest none |
| Sys.FirstFree | kernel/sys.cc:179-188 | the lowest free slot, all before it taken, or the length when none is free |
| Sys.LowestFree | kernel/sys.cc:179-188 | the search loop finds `FirstFree` |
| Sys.OpenSlotAgrees | kernel/sys.cc:445-452 | the descriptor search as written stops where the bounded search stops and reads slots 0 to that stop |
| Sys.OpenSlotReadsPast | kernel/sys.cc:445-452 | it reads the word past the table exactly when every slot is taken, and still stops at 10 |
| Sys.OpenSlotPastTable | kernel/sys.cc:553-560 | with ten taken slots it reads slot 10 and stops there, so -1 is returned |
| Sys.WalkAppend | kernel/sys.cc:40-81 | walking a + b is walking a, then b from where a ended |
| Sys.WalkFails | kernel/sys.cc:40-81 | a walk that fails stays failed |
| Sys.FindByAbsolute | kernel/sys.cc:40-81 | null for a path not starting with '/', else the walk of its components from the root |
| Sys.PathEnds | kernel/sys.cc:40-81 | the scanned components are the path's components |
| Sys.PathFails | kernel/sys.cc:40-81 | the walk stops with null at the first missing component |
| Sys.Touch | kernel/sys.cc:651-660 | allocates an inode; -1 when none is free; otherwise creates the file in the root or the current directory and returns 1 |
| Sys.Tcb.constructor | kernel/threads.cc:70-92 | a new process holds standard input (fd 0, not readable or writeable through `read`/`write`), standard output and standard error (fd 1 and 2, writeable) and has every other slot empty |
| Sys.Tcb.ForkSlot | kernel/sys.cc:179-188 | -1 exactly when the child table is full, else pid 10 + the lowest free slot |
| Sys.Tcb.Sem | kernel/sys.cc:243-260 | the lowest empty semaphore slot gets a new semaphore and id index + 20, or -1 when full |
| Sys.Tcb.SemCheck | kernel/sys.cc:262-297 | `up`/`down` accept exactly ids 20-29 naming a semaphore |
| Sys.Tcb.Close | kernel/sys.cc:299-346 | with negative ids refused (see Findings): clears the named slot and a child's parent link; 0 exactly when the slot was taken |
| Sys.Tcb.WaitCheck | kernel/sys.cc:353-372 | `wait` accepts exactly ids 10-19 naming a child |
| Sys.Tcb.Open | kernel/sys.cc:440-474 | the lowest free descriptor gets a fresh open file at offset 0; -1 when the table is full or the path is not found; `opendir` panics on a non-directory |
| Sys.Tcb.FileLen | kernel/sys.cc:476-487 | only fds 3-9 naming an open file give its size |
| Sys.Tcb.Seek | kernel/sys.cc:525-545 | fd 0-9 naming a readable file gets the offset, which is returned; otherwise -1; the file's vnode never changes, nor the offset of an unreadable file |

## Left out

- Port I/O is not modelled: `set_cursor`, `get_cursor`, `Shell::refresh` and `IDT::init` only talk to hardware or the screen.
- `OpenFile::write` prints the bytes; the model keeps only its `writeable` check and its return value.
- `LinkedList::print` (output) and the `VMMNode` destructor (page tables in vmm.cc, which is not part of this model) are left out.
- Threads, the scheduler, page tables and frame allocation, keyboard, PCI, network and boot code are not part of this model; nor are the atomic reference counts of `Shared`, which only manage memory lifetime.
- In `sys.cc`, `exit`, `fork`'s page copying, `execl`, `readShellLine`, `write`, `shell_theme`, `readdir`, `getcwd`, `chdir`, `sysHandler` and the blocking inside `up`/`down` are left out. Only the slot logic, range checks, path walk and `touch` result are modelled.
- The `Ide` device is not part of this model. `Device.Disk` is a byte array; reads beyond its end yield 0 and writes there are dropped.
- Device.WriteCount: each device write transfers exactly the rest of its 512-byte sector, capped at the bytes requested; a device that transfers fewer is not modelled. The chunking is what the driver's loop relies on (a write never passes the end of its block, kernel/ext2.h:211-217), and the loop results (`SpreadStores`, `WriteLoopPanics`, `NodeWritePanics`, `NodeWriteData`) are proved for this chunking.
- LinkedList.List.AddFirst, LinkedList.List.AddAfter, LinkedList.List.AddBefore: require the new element to be detached and not already in the list. The source does not check this, and relinking an element already present corrupts the list.
- VmmList.List.RemoveNode: requires a node starting at `va`; the source dereferences null when there is none.
- Sys.FindByAbsolute: takes path lookup as a `lookup` parameter. The file system's own walk is modelled by `FileSystem.Ext2.Find`.
- Sys.Tcb.Open: takes the outcome of the path lookup (`found`, `isDir`) as parameters. `dir` selects `opendir`, whose `ASSERT(vnode->is_dir())` is the `panicked` result.
- Sys.Tcb.FileLen: takes the node size as a parameter `sizeOf`.
- Sys.Touch: takes the current directory as a parameter; `current()` is thread state, which is not part of this model.
- UserFiles.OpenFile.Read: takes the node's `read_all` as a parameter `readAll`.
- FileSystem.Ext2.Find: requires the walk not to be `Stuck`. These are the cases `Stuck` stands for, with what the source does in each:
  - an entry's inode number lies outside the inode tables: `get_node` reads a group descriptor past the table and a record at an arbitrary disk address;
  - a directory on the path has data that is not `Addressable` (more than 12 + blockSize / 4 blocks): `read_block` reads past its one-block buffer;
  - a directory's records do not chain (`Ext2Dir.Chain`): with a record length of 0 the scan in `entries` never ends (kernel/ext2.h:332-347), and an offset that would pass 2^32 wraps;
  - a record header runs past the end of the data: `entries` reads its fields past the end;
  - a used record's name runs past the end of the data (`Ext2Dir.Named`): the source's `ASSERT(cnt == name_length)` panics (kernel/ext2.h:343), and the model excludes the case rather than modelling that panic.
- FileSystem.Ext2.Find: the panic for a walk through a non-directory stands for the `ASSERT(is_dir())` in `entries`.
- FileSystem.Node.DeleteNode: requires `Deletion` not to be `Fault`. These are the cases `Fault` stands for, with what the source does in each:
  - the recursion outlasts the ghost `Fuel` argument: a directory tree deeper than the fuel, or one whose first records form a cycle, where the source recurses without end;
  - a directory of size 1 to 3 bytes: `read(curByte, inodeNumber)` reads the first record's inode number past the end of the data (kernel/ext2.h:275);
  - a directory whose data is not `Addressable`: `read_block` reads past its one-block buffer;
  - the first record names an inode outside the inode tables: `get_node` reads a group descriptor past the table;
  - a freed block pointer lies in a group past the last block bitmap: `freeBlock` writes outside the bitmap table (kernel/ext2.h:297);
  - the parent's inode number lies outside the inode tables: its `write_all` stores the record at an arbitrary disk address;
  - the parent's data is not `Addressable`, or its records do not chain (`Ext2Dir.Chain`). For a record length of 0 the `deleteFromDirectory` loop never ends (kernel/ext2.h:233-266).
- Ext2Data.NodeWriteData, Ext2Data.NodeWriteAppends, Ext2Data.NodeWriteOver, Ext2Tree.EnteredEntries, Ext2Tree.DotsEntries, Ext2Tree.UnlinkDeletes, Ext2Tree.RemoveDetaches, Ext2Tree.DeletionDetaches: assume (`Laid`, and `Detachable` for the deletion lemmas) that the written range uses direct blocks only; that block allocation succeeds; that the blocks are distinct, inside the disk, and apart from the inode record. The source does not check a failed allocation (-1 is stored as a pointer, kernel/ext2.h:209).
- FileSystem.Ext2.CreateNode, FileSystem.CreateDirectoryEntry: require names shorter than 2^32 - 10 bytes, so that the record length fits in 32 bits. Listing lemmas also need names below 256 bytes, because the record's name length is one byte.
- Ext2Tree.UnlinkDeletes, Ext2Tree.RemoveDetaches, Ext2Tree.DeletionDetaches: need an inode number other than 0, since an unused record has number 0 and `RemoveFirst` is stated for listed entries. For a directory that deletes a child first, `DeletionDetaches` measures the parent's listing from the volume that the child's deletion left (`Ext2Tree.Prior`). That the child's writes leave the parent's data alone is not proved.
- Ext2Node.BlockAt, Ext2Node.ReadBlock, FileSystem.Node.ReadBlock: require the indirect entry i - 12 to lie inside the one indirect block, and `Addressable` bounds the size by (12 + blockSize / 4) blocks. `read_block` checks neither bound and reads past its one-block buffer for a larger index (kernel/ext2.h:183-188); such reads are outside the model.
- Ext2Tree.Made, FileSystem.Ext2.CreateNode: one `junk` parameter stands for every uninitialised stack buffer of `createNode`. The inode buffer's bytes are `junk`, and the padding of all three directory records ("name", ".", "..") is the same prefix `junk[..3]`. Buffers that differ from each other are not covered.
- FileSystem.Node.DeleteNode, FileSystem.Node.GetSymbol: the source's two symlink tests disagree at exactly 60 bytes, and both are modelled as written. `deleteNode` keeps a symlink's pointers only below 60 bytes (kernel/ext2.h:291), while `get_symbol` reads the text inline up to 60 bytes (kernel/ext2.h:360). So deleting a 60-byte symlink frees "blocks" whose numbers are bytes of the link text. No corrected version is modelled.
- Shell.Shell.HandleNormal: requires `cursor < 4096`, and Shell.Shell.HandleReturn requires the echoed text to fit (`ReturnFits`). The source writes past the 4096-byte buffer unchecked (kernel/shell.cc:68-76, 83).
- Ext2Dir.Chain: requires every record length to be positive. With a zero record length, `entries`, `entry_count`, `deleteFromDirectory` and `Node::find` never advance and loop forever (kernel/ext2.h:240-265, 327-349); such a directory is outside the model.
- FileSystem.Ext2.constructor: requires a mountable disk (`Mountable`): `blocksPerGroup` and `inodesPerGroup` positive and at most eight per bitmap byte, and a block-size shift that keeps the size positive. The source divides by zero for `blocksPerGroup == 0`, and a large shift makes the block size 0.

## Findings

| source | as written | input that shows it | evidently intended | confidence | as-written member | corrected member |
|---|---|---|---|---|---|---|
| kernel/commands.cc:34-53 | the split loop starts at `program_name_size + 1` even when the name ends at the NUL | `"ls"`: `argc` is 1, but the loop starts past the terminator and fills a second slot | split only when a space follows the name | not executed | Commands.SlotsAsWrittenOverflow | Commands.SplitCommand |
| kernel/VMMLinkedList.h:57-58 | the fit test `end + sz > next.start` is computed in 32 bits | dummy region ending at 0x8000_0000 and `sz` 0x8000_0000: the sum wraps to 0, so the new region is placed overlapping the ioAPIC page | compare without wrap-around | not executed | VmmList.WrapOverlaps | VmmList.AddedSorted |
| kernel/sys.cc:299-321 | `close` treats every id below 20 that is not 0-9 as a child id, negative ones included | `close(-1)` indexes `children[-11]` | refuse negative ids like ids of 30 and above | not executed | Sys.CloseNegativeId | Sys.CloseSlot |
| kernel/sys.cc:22-38 | `is_user` tests the APIC pages against `start + nbytes` in 32 bits | start 0xFFFF_F000, 0x8000_1000 bytes: the end wraps and the range is accepted although it runs past 2^32 | reject ranges that wrap | not executed | Sys.IsUserWraps | Sys.IsUserSafe |
| kernel/sys.cc:445, 553 | the descriptor search tests `open_files[i]` before `i < 10` | ten open files: the loop reads `open_files[10]`, one past the table, before it stops at 10 | test the bound first | not executed | Sys.OpenSlotPastTable | Sys.OpenSlotAgrees |
