# RUFS in Dafny

A model of the core of RUFS, a small FUSE file system kept in one disk image of 4096-byte
blocks. The disk holds:

- a superblock (block 0);
- an inode bitmap (block 1) and a data-block bitmap (block 2);
- a table of 1024 inode records of 256 bytes each (blocks 3 to 66);
- data blocks from block 67 up to 16384.

A file or directory inode has 16 direct block pointers and 8 indirect ones. Each indirect
pointer names a pointer block of 1024 block numbers. The value -1 means "unallocated".

A directory is a packed array of 214-byte entries, 19 to a block. Each entry has a valid
flag, an inode number, a 208-byte name buffer (terminator included) and the name's length. The directory's
size field is its number of entries times 214.

These sizes and limits are those of the usual build of the header rufs.h, which is not part
of this model (see "## Left out").

The model covers:

- the allocators `get_avail_ino` and `get_avail_blkno`;
- the record I/O `readi` and `writei`;
- the directory operations `dir_find`, `dir_add` and `dir_remove`;
- path resolution (`get_node_by_path`) and `dir_base_split`;
- `rufs_mkfs`;
- the FUSE operations `mkdir`, `create`, `rmdir` and `unlink`;
- the direct-block paths of `read` and `write`.

Layout of the Dafny modules:

- `Layout` (layout.dfy): constants, the disk as a map from block number to typed block
  contents, and the typed views of a block. A block read under another type, or never
  written, reads as zeroes.
- `InodeStore` (inode_store.dfy): `readi` and `writei` as functions on the disk.
- `Bitmap` (bitmap.dfy): the allocators' do-while scan as a function, with its
  specification.
- `Paths` (paths.dfy): the component cutting of `get_node_by_path`, and `dir_base_split`.
- `Resolution` (resolve.dfy): component-by-component resolution.
- `Directory` (directory.dfy): a directory's entries, its scan, lookup, and the
  consistency predicate `DirValid`. Under `DirValid`, the size is a whole number of
  entries. Each used block, and each used pointer block, is allocated and named once. Every
  pointer the directory holds names a data block whose bit is set.
- `DirectoryFrame` (directory_frame.dfy): which writes keep a directory consistent, and the
  step lemmas of `dir_add` and `dir_remove`.
- `RemoveAsWritten` (remove_as_written.dfy): the lemmas behind the two `dir_remove`
  findings.
- `FileData` (file_data.dfy): a file's bytes, and the step lemmas of `read` and `write`.
- `Format` (format.dfy): what `rufs_mkfs` writes, and the records `mkdir` and `create`
  initialise.
- `FileSystem` (fs.dfy): class `Fs` holds the disk and the two bitmaps as arrays. Its
  methods are the imperative operations, with the source's loops.
- `Operations` (ops.dfy): `mkdir`, `create`, `rmdir` and `unlink` over an `Fs`.

Time is left out, and so are the uid and gid fields, since they come from the process. The
disk image is a field of `Fs`. `bio_read` and `bio_write` are reads and updates of that
map.

## Model

| member | source | states |
|---|---|---|
| Layout.Geometry | rufs.c:617-639 | The derived constants are what the code computes from the record sizes: 16 records, 19 entries or 1024 pointers per block. The data region starts at block 67, right after the inode table. Both bitmaps fit in one block. |
| InodeStore.PlacementInjective | rufs.c:113-127 | Two inode numbers with the same table block and slot are equal, so no two records overlap. |
| InodeStore.ReadAfterWrite | rufs.c:113-144 | `readi` after `writei` of the same inode gives back the record written. |
| InodeStore.WriteLeavesOthers | rufs.c:129-144 | `writei` changes no other inode's record. |
| InodeStore.WriteLeavesOtherBlocks | rufs.c:129-144 | `writei` changes no block but the inode's own table block. |
| InodeStore.WriteKeepsOthers | rufs.c:129-144 | `writei` keeps every other record, stated for all of them at once. |
| InodeStore.TableBelowData | rufs.c:113-127 | The table block of every valid inode number lies between block 3 and the data region. |
| InodeStore.DataWriteKeepsInodes | rufs.c:1341 | A block write inside the data region leaves every inode record unchanged. |
| Bitmap.ScanStop | rufs.c:59-66 | The do-while stops at the first clear bit, or at the bound. Every bit it passes is set. |
| Bitmap.AllocSpec | rufs.c:51-77 | An allocation returns exactly the lowest clear bit below the bound and sets only that bit. It fails with -1 exactly when every bit below the bound is set, and then the bit at the bound ends up set. |
| Bitmap.AllocTwiceIncreasing | rufs.c:51-77 | Two allocations in a row with no free between them return strictly increasing indices. |
| Bitmap.RunOfTwo | rufs.c:289-311 | Two claims in a row that stop at the first failure leave the bitmap of one allocation when that fails, and of two otherwise; the run fails exactly when one of the two does. |
| Bitmap.AllocsAbove | rufs.c:51-77 | Once every bit below m is set, each of k further allocations returns -1 or an index of at least m. |
| Bitmap.AllocsIncreasing | rufs.c:51-77 | The indices that k allocations in a row return, failures aside, are strictly increasing, so no block or inode number is handed out twice. |
| Paths.ComponentsOfJoin | rufs.c:544-596 | Cutting "/c1/.../cn" into components gives back c1..cn, for '/'-free names whose last one is not empty. |
| Paths.TrailingNameIs | rufs.c:903-929 | A '/'-free suffix preceded by a '/', or by nothing, is exactly the base name. |
| Paths.DirNameAbsolute | rufs.c:903-929 | The directory part of an absolute path is itself absolute. |
| Paths.DirBaseSplit | rufs.c:903-929 | The base name is the '/'-free part after the last '/'. The directory name is everything before that '/', or "/" when that is empty. Directory name + "/" + base name rebuilds the path. |
| Resolution.ResolveCharsIsResolve | rufs.c:561-593 | The character loop of `get_node_by_path` looks up exactly the components that the component cutter produces, in order. |
| Resolution.CloseStep | rufs.c:567-584 | When a '/' or the last character closes a component, its lookup decides the outcome: not found resolves to nothing, the last component resolves to the record of its entry, and after a '/' the rest of the path resolves from the directory found. |
| Resolution.ResolveIsWalk | rufs.c:544-596 | Resolution succeeds exactly when every lookup along the walk succeeds, and yields the inode of the last entry found. |
| Resolution.ResolveJoined | rufs.c:544-596 | The path "/c1/.../cn" resolves by looking up exactly c1, ..., cn. |
| Directory.FindFrom | rufs.c:178-193 | The first matching index at or after j. No entry before it matches. None means no entry there matches. |
| Directory.LeadingSet | rufs.c:167 | The leading run of allocated pointers: all set below it, unset at its end. |
| Directory.ScanLimit | rufs.c:162-244 | The scan of `dir_find` reaches at most the entry count and at most the table's capacity. |
| Directory.ValidScansAll | rufs.c:150-248 | On a consistent directory, the block-by-block scan reaches every live entry, in order. |
| Directory.FindAppend | rufs.c:250-360 | After an entry is appended, an existing match still wins. Otherwise the new entry is found exactly when it matches. |
| Directory.SwapRemove | rufs.c:483-516 | The compaction: the last entry moves into the hole, every other entry stays where it was, and there is one entry fewer. |
| Directory.SwapRemoveMultiset | rufs.c:483-516 | The compaction loses exactly the removed entry and keeps all the others. |
| Directory.SwapRemovePresence | rufs.c:483-516 | After the compaction, a name is present exactly when some entry other than the removed one carried it. |
| DirectoryFrame.InodeWriteKeeps | rufs.c:129-144 | A `writei` of any inode keeps every directory consistent, with the same entries and pointers. |
| DirectoryFrame.AttachDirect | rufs.c:278-288 | A newly claimed block put at an unset direct pointer keeps the directory consistent and its entries unchanged. The new block is owned and named nowhere else. |
| DirectoryFrame.AttachPointerBlock | rufs.c:289-301 | A new pointer block of all -1, at an unset indirect pointer, keeps the directory consistent and its entries unchanged. |
| DirectoryFrame.PointerSlotWrite | rufs.c:302-311 | Storing a new block's number in an allocated pointer block keeps the directory consistent, and that logical block now names the new block. |
| DirectoryFrame.PlaceEntry | rufs.c:313-353 | Writing the entry into its slot and growing the size by one entry appends exactly that entry, and the directory stays consistent. |
| DirectoryFrame.AddedIsFound | rufs.c:250-360 | After an entry is appended under a name not present before, a lookup of that name finds it. |
| DirectoryFrame.ShrinkCount | rufs.c:483-516 | Counting one entry fewer keeps the directory consistent and drops the last entry. |
| DirectoryFrame.ReleaseDirect | rufs.c:517-531 | Freeing the direct block past the live entries (pointer unset, bit cleared) keeps the directory consistent and its entries unchanged. |
| DirectoryFrame.ReleaseIndirect | rufs.c:517-531 | Freeing an indirect block past the live entries, by unsetting its slot in the pointer block, keeps the directory consistent. |
| DirectoryFrame.ReleaseGroup | rufs.c:517-531 | Freeing the pointer block of a group with no live block keeps the directory consistent. |
| DirectoryFrame.ClobberedPointerBlock | rufs.c:517-531 | A directory whose pointer block, for a group still in use, holds directory entries instead of pointers is not consistent. |
| DirectoryFrame.GapClosed | rufs.c:483-516 | The two compaction writes, with one entry counted fewer, leave a consistent directory whose entries are SwapRemove of the old ones. The pointer blocks and the inode table are untouched. |
| DirectoryFrame.LoneCleared | rufs.c:399-411 | When the matching entry is the last one and alone at slot 0 of its block, zeroing it and counting one fewer drops exactly that entry and leaves the block free to release. |
| DirectoryFrame.Committed | rufs.c:533-538 | The closing `writei` of `dir_remove` turns the staged state into a removal of entry j. Every other record is unchanged. |
| DirectoryFrame.ReleaseFrees | rufs.c:517-531 | Corrected release (the as-written one is FileSystem.Fs.ReleaseAsWritten): freeing logical block lb clears exactly the bit of the block it names, and of its pointer block when lb is the first of its group. A direct release sets that pointer to -1. An indirect release writes the pointer block back with the slot at -1, and sets the indirect pointer to -1 when the group empties. Every other bit is unchanged. |
| DirectoryFrame.ReleaseTest | rufs.c:483-516 | Once the entry is found and is not alone in the last block, `offset == 0 && num_dirents == 1` holds exactly when ReleasesLast says that the last block is freed. |
| DirectoryFrame.FinishReleases | rufs.c:517-538 | The release and `writei` that end `dir_remove` leave the record one entry smaller, with the last block's pointers cleared as ReleasesLast says, and the bitmap with that block's bits cleared (BlockReleased). |
| DirectoryFrame.GapReleases | rufs.c:483-538 | On the compaction path, the release that the code's test triggers is the one BlockReleased describes. |
| RemoveAsWritten.StaleWritesWrong | rufs.c:420-475 | As written: entry j sits in an indirect block, and a later block's entries end up in the buffer that is written back to j's block. The resulting directory is not SwapRemove of the old one. |
| RemoveAsWritten.ReleaseClobbers | rufs.c:517-531 | As written: freeing an indirect block that is not the first of its group writes the entry buffer over the group's pointer block, and the directory is left inconsistent. |
| RemoveAsWritten.OnlyMatchFound | rufs.c:420-475 | When the name matches one entry only, no entry past the block where the scan found it matches. |
| FileData.Splice | rufs.c:1337-1338 | The memcpy into a block buffer: the source bytes land at their offsets, and every other byte of the block is kept. |
| FileData.SplitOffset | rufs.c:1243-1244 | The offset splits into a block and an offset inside it: block * 4096 + loc == offset, loc < 4096. |
| FileData.ReadMore | rufs.c:1246-1258 | Copying the next piece of a block extends what was read so far by exactly the file's next bytes. |
| FileData.ReadsAsRange | rufs.c:1232-1306 | What the read loop gathers is the file's byte range asked for. |
| FileData.StoreBlock | rufs.c:1334-1341 | Writing a block of a file whose pointers are owned changes that file's bytes at the positions written and at no byte outside the block. |
| FileData.WriteMore | rufs.c:1322-1345 | One more block pass extends the prefix of the buffer that reads back, and keeps the bytes outside the range already allocated. |
| FileData.InodeWriteKeepsBytes | rufs.c:1332 | A `writei` leaves the bytes of every file whose blocks lie in the data region. |
| FileData.OwnsAfterClaim | rufs.c:1327-1332 | Claiming a clear bit for an unset direct pointer keeps the file's pointers distinct and owned. |
| FileData.SizeWriteKeepsBytes | rufs.c:1399-1401 | The closing `writei` with the new size leaves the bytes written and the bytes kept. |
| Format.TypeKeepsKind | rufs.c:1000 | `S_IFDIR | (mode & 0777)` and `S_IFREG | (mode & 0777)` keep the file-type bits and carry exactly the requested permission bits. |
| Format.Formatted | rufs.c:599-691 | The formatted disk holds one valid record, the root as inode 0: an empty, consistent directory. Every other record is invalid, no name is found in the root, "/" resolves to the root and no longer path resolves. |
| Format.MkfsBitmapsOverrun | rufs.c:625-648 | With every bit that mkfs allocated set, both allocators still probe a bit past the arrays that mkfs allocated (1024 and 16312 bits). |
| FileSystem.ClaimFirstClear | rufs.c:59-66 | The do-while loop takes the bitmap from `bits` to AllocBits and returns AllocIndex. |
| FileSystem.FirstMatch | rufs.c:178-193 | The first of the first cnt entries of a block that matches the name, or -1 when none does. |
| FileSystem.FoundAt | rufs.c:178-193 | A match found at slot i of the block holding scanned entries from `consumed` on is the first match of the whole scan, given none before. |
| FileSystem.SplitLb | rufs.c:198-244 | An indirect logical block splits into its pointer block and slot, which add back up to it. |
| FileSystem.GroupPtr | rufs.c:198-244 | Slot k of pointer block g holds the pointer of logical block 16 + g * 1024 + k. |
| FileSystem.ReadGroupBlock | rufs.c:198-244 | One block of the indirect scan: the first of its entries that matches, and the count of entries it holds. |
| FileSystem.ContinueGroup | rufs.c:420-475 | The inner loop of the indirect scan of `dir_remove`, as written: it goes on past the match, and a later match replaces it. |
| FileSystem.ReadOnGroup | rufs.c:420-475 | The loop of that inner scan: the blocks it reads, the size decremented at each later match, and the early exit at a later match alone at slot 0 of the last block. With no later match the size and the position of the match are kept. |
| FileSystem.Fs.Mkfs | rufs.c:599-691 | The new disk is FormattedDisk. The inode bitmap has only bit 0 set, for the root, and the data bitmap is clear. |
| FileSystem.Fs.GetAvailIno | rufs.c:51-78 | Claims the lowest free inode number below MAX_INUM. Returns -1 when all are used. The bitmap becomes AllocBits. |
| FileSystem.Fs.GetAvailBlkno | rufs.c:82-108 | Claims the lowest free data block and returns D_START_BLK + its bit. Returns -1 when the scan would reach MAX_DNUM. |
| FileSystem.Fs.Writei | rufs.c:129-144 | The disk becomes WriteInode of the old disk. |
| FileSystem.Fs.ScanBlock | rufs.c:167-197 | For one block of the scan: the first matching entry among the next entries the count allows, or -1. |
| FileSystem.Fs.ScanGroup | rufs.c:198-244 | The blocks named by one pointer block, scanned in order while entries remain. A match reports the first matching entry of those blocks. |
| FileSystem.Fs.ScanDirect | rufs.c:162-197 | The direct blocks, scanned in order while their pointers are set and entries remain. A match is the first one. |
| FileSystem.Fs.ScanIndirect | rufs.c:198-244 | The indirect part of the scan, group by group while the pointers are set and entries remain. A match is the first match of the whole scan; otherwise it stops where no pointer is set or no entry is left, with no match before. |
| FileSystem.Fs.LocateEntry | rufs.c:150-248 | The result is the position of Find(Scanned(disk, dir), name): -1 when no scanned entry matches, otherwise the block and slot of the first match. |
| FileSystem.Fs.DirFind | rufs.c:150-248 | Returns 0 exactly when Lookup of the name in the directory succeeds, and then returns that entry. Otherwise it returns -1. |
| FileSystem.Fs.GetNodeByPath | rufs.c:544-596 | Returns 0 exactly when the path resolves, and then returns the resolved record. |
| FileSystem.Fs.CloseComponent | rufs.c:567-584 | The branch of the loop that closes a component: -1 when `dir_find` does not find it, and then the path does not resolve; at the last character the record found is what the path resolves to; after a '/' the rest of the path resolves from the entry found. |
| FileSystem.Fs.AddDirectBlock | rufs.c:278-288 | The bitmap is exactly one get_avail_blkno step on the old one. -ENOMEM comes exactly when that step finds no free block, and then the data region is full and nothing else changed. On success, direct[lb] holds the block claimed and the inode is written. On a consistent directory the new block is ready for the next entry and the old entries are kept. |
| FileSystem.Fs.AddPointerBlock | rufs.c:289-301 | The bitmap is exactly one get_avail_blkno step on the old one, and -ENOMEM comes exactly when it fails. On success, indirect[g] holds the block claimed, the disk has that block filled with 1024 pointers of -1 and the inode written, and nothing else. The directory stays consistent. |
| FileSystem.Fs.AddGroupBlock | rufs.c:302-311 | The bitmap is exactly one get_avail_blkno step on the old one, and -ENOMEM comes exactly when it fails. On success, the only block written is the group's pointer block, with the block claimed at slot IndexInGroup(lb). |
| FileSystem.Fs.PlaceDirent | rufs.c:313-353 | The entry is written into its slot and the size grows by one entry. The directory's entries become the old ones plus the new entry. |
| FileSystem.Fs.ClaimSlot | rufs.c:273-312 | The bitmap is exactly ClaimsFor(dir) allocations in a row, stopping at the first failure. -ENOMEM comes exactly when the directory is full or one of those allocations fails. With no claim the disk and inode are unchanged. On a directory consistent with the old disk and bitmap, the state is staged for the append and, on success, the block and slot of the next entry are found and the block exists, ready to take it, with the old entries kept. |
| FileSystem.ClaimsAtBlockStart | rufs.c:273-312 | In a consistent directory, dir_add claims a block only when the new entry starts a block past the live ones. |
| FileSystem.Fs.DirAdd | rufs.c:250-360 | Returns -EEXIST exactly when the directory's first direct pointer is set and the name is already found, and then changes nothing. Otherwise the bitmap is exactly the ClaimsFor(dir) allocations, and -ENOMEM comes exactly when the directory is full or one of them fails. On a directory consistent with the old disk and bitmap: the other inode records are kept, the directory stays consistent, and on success its entries gain exactly (fIno, name, length) at the end and a lookup of the name finds it, while after -ENOMEM the entries are unchanged. |
| FileSystem.Fs.UnsetDataBit | rufs.c:517-531 | Clears the bit when it lies in the bitmap. Otherwise nothing changes. |
| FileSystem.Fs.UnsetInodeBit | rufs.c:1073 | Clears the inode bit when it lies in the bitmap. Otherwise nothing changes. |
| FileSystem.Fs.ReleaseBlock | rufs.c:517-531 | Corrected release (the as-written one is FileSystem.Fs.ReleaseAsWritten). The new inode, bitmap and disk are exactly those of ReleaseFrees: the block's bit cleared, its pointer set to -1, and for an indirect block the pointer block written back, or freed when it empties. On a consistent directory the entries are unchanged, the directory stays consistent, and every inode record is kept. |
| FileSystem.Fs.ReleaseIndirectBlock | rufs.c:517-531 | Corrected release (the as-written one is FileSystem.Fs.ReleaseAsWritten). The indirect case, exactly as ReleaseFrees describes: the block's bit cleared, the slot at -1 in the pointer block written back, and the pointer block's bit and indirect pointer cleared when the slot was the first of its group. The directory stays consistent with the same entries. |
| FileSystem.Fs.Finish | rufs.c:517-538 | The bitmap and disk are exactly the release, when `release` says so, followed by the `writei` of the record (FinishedBits, FinishedDisk). On a well-staged directory the result is a removal. |
| FileSystem.Fs.RemoveLoneLast | rufs.c:399-411 | The early exit: the disk is the slot zeroed, the last block released and the smaller record written, and the bitmap has that block's bits cleared. On a consistent directory this is a removal of the last entry that frees its block (BlockReleased). |
| FileSystem.Fs.MoveLast | rufs.c:483-516 | -1 when the last entry's block is unreachable, with nothing changed. Otherwise the last entry is copied into the hole and, when it lies in another block than the hole, its old slot there zeroed (in the same block the old slot keeps its bytes past the new count); the pointer block and the last block's buffer it read are returned for the release. |
| FileSystem.Fs.CloseGap | rufs.c:483-538 | Corrected compaction, from the matched entry's own block and with the corrected release (the as-written one is FileSystem.Fs.CloseGapAsWritten). On success the disk and bitmap are exactly the compaction writes, then the release on the code's test `offset == 0 && num_dirents == 1`, then `writei`. On a consistent directory this is Removed(old, dir, new, j): entries are SwapRemove of the old ones, and the directory is consistent. |
| FileSystem.Fs.DirRemove | rufs.c:362-539 | The corrected `dir_remove` of the two dir_remove findings: the scan stops at the match and the release writes the pointer block (the as-written one is FileSystem.Fs.DirRemoveAsWritten). -1 means nothing changed. On a consistent directory, returns 0 exactly when the name is listed. Then the matching entry is removed (SwapRemove), the directory stays consistent, every other record is kept, and the last block is freed exactly when ReleasesLast says so (BlockReleased). |
| FileSystem.Fs.ReleaseAsWritten | rufs.c:517-531 | As written: the buffer of the last block is written over the group's pointer block. |
| FileSystem.Fs.FinishAsWritten | rufs.c:517-538 | The release as written, then the closing `writei`. |
| FileSystem.Fs.CloseGapAsWritten | rufs.c:483-538 | The compaction from buffer buf as written: removal when buf is entry j's own block, otherwise the outcomes of the findings. |
| FileSystem.Fs.CompactAsWritten | rufs.c:420-538 | The shape of the removal depends only on the count and on j: sound, clobbered pointer block, or stale entries. |
| FileSystem.Fs.CompactIndirectAsWritten | rufs.c:420-538 | The same for an entry in an indirect block. |
| FileSystem.Fs.ScanOnAsWritten | rufs.c:420-538 | From the block of the match on: a later lone match takes the early exit; otherwise the compaction as written gives a removal in the sound shape, an inconsistent directory when the pointer block is clobbered, and a wrong entry list when stale entries are left. |
| FileSystem.Fs.CloseIndirectAsWritten | rufs.c:483-538 | The compaction and release as written from the last block read: the same three outcomes, and 0 whenever the entry was located. |
| FileSystem.Fs.DirRemoveAsWritten | rufs.c:362-539 | `dir_remove` as written: -1 for a name the scan does not find, with nothing changed; on a consistent directory, the outcomes RemovedAsWritten names: a sound removal in the RemovesSoundly shapes, the last block freed when the entry was alone in it, a directory left inconsistent in the ClobbersPointerBlock shape, and entries that are not a removal in the LeavesStaleEntries shape. |
| RemoveAsWritten.MissingAsWritten | rufs.c:477-481 | A name the scan does not find gives -1 with disk and bitmap unchanged, and on a consistent directory the name is not listed at all. |
| RemoveAsWritten.LoneAsWritten | rufs.c:396-412 | An entry alone in the last block is removed soundly, its block is freed (BlockReleased), and the call returns 0. |
| RemoveAsWritten.CompactedAsWritten | rufs.c:420-538 | The compaction's outcomes for entry i of block lb are the outcomes for the entry the search finds, and a name listed once is always removed with 0. |
| FileSystem.Fs.Read | rufs.c:1232-1306 | -ENOENT when the path does not resolve, with nothing changed. Otherwise returns size, the buffer is exactly the file's `size` bytes from `offset` on, and the record is written back unchanged. |
| FileSystem.Fs.ClaimForWrite | rufs.c:1327-1333 | An unset direct pointer gets a newly claimed block, or -ENOMEM with the data region full. The pointers stay owned. |
| FileSystem.Fs.WriteDirectBlock | rufs.c:1324-1345 | On success the block's pointer is set, and an already set pointer leaves the record and bitmap unchanged; -ENOMEM only for an unset pointer with the data region full. For a file with ino < MAX_INUM whose pointers are owned (OwnsBlocks): the pointers stay owned, the bytes written read back, other blocks are kept, and in an already allocated block the bytes outside the range are kept. |
| FileSystem.Fs.WriteStep | rufs.c:1322-1345 | One pass of the write loop: the piece of the buffer that fits in the block is written, with allocated pointers kept, or -ENOMEM with the data region full. Under the loop's ownership hypothesis `h` (ino < MAX_INUM, owned pointers, the prefix so far reads back and bytes outside it kept), the prefix of the buffer that reads back grows by the piece and bytes outside it are kept. |
| FileSystem.Fs.WriteBlocks | rufs.c:1318-1393 | After the loop only the direct pointers changed and the allocated ones are kept, or it fails with -ENOMEM with the data region full. For a file with ino < MAX_INUM whose pointers are owned (OwnsBlocks), the pointers stay owned, the file reads back the buffer from `offset` on, and every byte of an already allocated block outside that range is kept. |
| FileSystem.Fs.Write | rufs.c:1308-1408 | Returns -ENOENT exactly when the path does not resolve, with nothing changed; -ENOMEM means the data region is full. Bits only get set. On success, for a resolved file with ino < MAX_INUM whose pointers are owned (OwnsBlocks): the record's size is offset + n, its allocated pointers are kept, the file reads back the buffer, and bytes outside the range that were already allocated are kept. |
| Operations.InodeWriteKeepsLookups | rufs.c:1023 | Writing another inode's record keeps a consistent directory consistent and every lookup's answer the same. |
| Operations.MakeNode | rufs.c:931-1030 | -ENOENT exactly when the parent does not resolve; -EEXIST exactly when the parent's first pointer is set and the base name is found; in both cases nothing changes. -ENOMEM when get_avail_ino or dir_add runs out. On success, the new record is in the table and the parent lists it. |
| Operations.Mkdir | rufs.c:931-1030 | MakeNode with type S_IFDIR \| (mode & 0777) and two links. A failing dir_add's code is passed on. |
| Operations.Create | rufs.c:1113-1212 | MakeNode with type S_IFREG \| (mode & 0777) and one link. A failing dir_add is reported as -EIO. |
| Operations.RemoveFromParent | rufs.c:1467-1493 | The closing steps that rmdir and unlink share, through the corrected dir_remove (FileSystem.Fs.DirRemove): -ENOENT exactly when the parent path does not resolve, and then nothing changes; -EIO when the corrected dir_remove fails, with nothing changed; otherwise the outcome Unlinked names, with bits only cleared. |
| Operations.Rmdir | rufs.c:1032-1104 | -1 exactly when the path does not resolve; -ENOTEMPTY exactly when its size is not 0. Otherwise the inode bit is cleared; then -ENOENT when the parent does not resolve, -EIO when the corrected dir_remove fails, and on success the entry is removed from the parent as the corrected dir_remove removes it. |
| Operations.FreedReleases | rufs.c:1441-1462 | Freeing the listed blocks only clears bits. None of them stays marked in use, and every other bit is kept. |
| Operations.FreeOne | rufs.c:1444 | One more `unset_bitmap` extends the list of freed blocks by one. |
| Operations.FreeDirect | rufs.c:1441-1446 | The bits of the leading set direct blocks are cleared. |
| Operations.FreeGroup | rufs.c:1451-1461 | The bits of a pointer block's leading set entries are cleared, then the bit of the pointer block itself. |
| Operations.FreeIndirect | rufs.c:1448-1462 | The groups of the leading set indirect pointers are freed. |
| Operations.FreeFile | rufs.c:1441-1462 | The data bitmap becomes Freed(old, FileBlocks(disk, record)). |
| Operations.Unlink | rufs.c:1410-1494 | -1 exactly when the path does not resolve, and then nothing changes. Otherwise every block of the record is freed and its inode bit cleared; then -ENOENT when the parent does not resolve, -EIO when the corrected dir_remove fails, and on success the entry is removed from the parent as the corrected dir_remove removes it. |

## Left out

- I/O errors: `bio_read` and `bio_write` always succeed, so no -EIO comes from the device.
- Timestamps, uid and gid: time and the calling process are outside the model.
- The indirect-block branches of `read` and `write`: only offsets within the 16 direct blocks are modelled.
- Negative offsets: `offset` is a natural number.
- Read, Write: both require an absolute path, as FUSE always passes one.
- GetNodeByPath: requires an absolute path. The code skips the first character of any path without checking that it is '/'.
- DirFind: the `writei` that `dir_find` does on a match changes only the access time, so the model leaves the disk unchanged.
- LocateEntry: the guard order of the scans of `dir_find` and `dir_remove` is swapped. The code reads `direct_ptr[d]` before `d < 16`, and `indirect_ptr[d - 16]` before bounding d. The model tests the bound first, and bounds the pointer-block slot by 1024.
- FreeGroup: `unlink` reads `blk_nums[k]` before testing k < 1024. The model tests k first.
- DirAdd: the code copies a name of any length into a 208-byte buffer. The model requires the name to fit.
- Mkdir, Create: these require the base name to fit, for the same reason.
- PlaceDirent: dir_add clears the whole block buffer, reads the block and copies one `struct dirent` into it. The model reads the block as typed entries and replaces the one entry. The bytes of a block are not modelled.
- ClaimSlot: past the last indirect pointer (group 8 or more) the code reads `indirect_ptr[g]` out of bounds. The model returns -ENOMEM there instead.
- MoveLast: past the last indirect pointer the code reads `indirect_ptr[g]` out of bounds. The model returns -1, and nothing is written.
- DirAdd: no frame is stated for the data blocks the directory does not own; only the inode records other than the directory's are stated unchanged.
- DirRemove: likewise, no frame is stated for the data blocks the directory does not own; the inode records other than the directory's stay unchanged.
- Operations.MakeNode, Operations.Rmdir, Operations.Unlink: no frame is stated for the data blocks of other files; only the inode records are framed.
- FileSystem.Fs.Write: does not claim that other files keep their contents.
- FileSystem.Fs.Write: bytes of a newly claimed block outside the range written show whatever that block held before. The contract says nothing about them.
- FileSystem.Fs.Write: the round trip is stated on the inode record that was written, not through a second path resolution.
- FileSystem.Fs.Write: the code sets the size to offset + size even when that shrinks the file. The model follows the code, not the intent of growing the size only.
- Operations.MakeNode: the success outcome about the parent's entries assumes that the parent was consistent and is not the new inode itself.
- Operations.Rmdir, Operations.Unlink: the removal outcome assumes that the parent was consistent.
- Operations.RemoveFromParent, Operations.Rmdir, Operations.Unlink: the entry is removed through the corrected FileSystem.Fs.DirRemove. On the inputs of the two dir_remove findings, the code as written does what FileSystem.Fs.DirRemoveAsWritten describes: stale entries or a clobbered pointer block, still returning 0.
- FileSystem.Fs.UnsetDataBit, FileSystem.Fs.UnsetInodeBit, Operations.Unset: `unset_bitmap` lives in rufs.h, which is not part of this model. Leaving the bitmap unchanged for an index outside it is the model's choice. A pointer below block 67 in a corrupt record (rufs.c:519, 1444, 1456, 1460) would make the code clear a bit outside the array.
- Operations.Unlink: the model, like the code, does not check the file type, and never writes the freed inode record back.
- Operations.Mkdir: like the code, a failing dir_add leaves the new inode bit set.
- FreeFile: a freed block that also belongs to another file is not detected; leaked or shared blocks are outside the model.
- FileSystem.Fs.DirRemoveAsWritten: the case where both findings happen in one call is not characterised.
- FileSystem.Fs.DirRemoveAsWritten: for the stale-entry outcome, the contract assumes that the name is listed once and the entries are distinct.
- Mounting (`rufs_init` with an existing disk) and `rufs_destroy` are not modelled. The bitmaps are whole blocks in memory, as mounting loads them.
- FileSystem.Fs.Mkfs: `bio_write(0, my_super_block)` writes a whole block from a smaller structure. The model stores the superblock alone.
- The remaining FUSE callbacks (getattr, opendir, readdir, open, truncate, release, flush, utimens) and `main` are not part of this model.
- The record sizes and limits (4096-byte blocks, 256-byte inodes, 214-byte entries with 208-byte names, MAX_INUM 1024, MAX_DNUM 16384, 16 direct and 8 indirect pointers) come from rufs.h, which is not part of this model. They are fixed constants of the usual build, and the counts derived from them (16 inodes and 19 entries per block, 1024 pointers per block) are floor divisions over them.
- Integer widths: inode numbers are 16-bit; block numbers and sizes are unbounded integers, which the disk bounds keep in range.

## Findings

| source | as written | input that shows it | evidently intended | confidence | as-written member | corrected member |
|---|---|---|---|---|---|---|
| rufs.c:420-475 | Once the entry is found in an indirect block, the inner loop of `dir_remove` goes on reading later blocks into the same buffer. The compaction then writes that buffer over the entry's block. | A directory with more than 16 * 19 + 19 entries, removing an entry in the first indirect block while a later block holds at least two entries. | Stop at the match and compact the entry's own block. | not executed | RemoveAsWritten.StaleWritesWrong | FileSystem.Fs.DirRemove |
| rufs.c:517-531 | Freeing an indirect block that is not the first of its group writes the entry buffer over the group's pointer block. | A directory whose size just crosses into the second block of an indirect group, removing an entry so that that block is released. | Unset that block's pointer in the pointer block and write the pointer block back. | not executed | RemoveAsWritten.ReleaseClobbers | FileSystem.Fs.DirRemove |
| rufs.c:625-648 | mkfs allocates bitmaps of 128 and 2039 bytes, and the allocators scan up to bit 1024 and bit 16317. | Allocating every inode number so that bit 1024 is probed, or every data block. | Bitmaps as large as the scans; the model keeps one block each, as mount loads them. | not executed | Format.MkfsBitmapsOverrun | FileSystem.Fs.Mkfs |
