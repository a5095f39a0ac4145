/** The mounted file system: the disk image and the two in-memory bitmaps, with the block
    allocators, inode I/O, the directory operations and path resolution that work on them. */
module FileSystem {
  import opened Layout
  import opened InodeStore
  import opened Bitmap
  import opened Directory
  import opened DirectoryFrame
  import opened Paths
  import opened Resolution
  import opened RemoveAsWritten
  import opened FileData
  import opened Format

  /** The do-while scan of get_avail_ino and get_avail_blkno: test a bit, set it if clear,
      and go on while the bit was set and the index just probed is below the bound. */
  method ClaimFirstClear(bits: array<bool>, bound: nat) returns (r: int)
    requires bound < bits.Length
    modifies bits
    ensures bits[..] == AllocBits(old(bits[..]), bound)
    ensures r == AllocIndex(old(bits[..]), bound)
  {
    ghost var b0 := bits[..];
    var bit := bits[0];
    if !bit {
      bits[0] := true;
    }
    var index := 1;
    while bit && index - 1 < bound
      invariant 1 <= index <= bound + 1
      invariant bit == b0[index - 1]
      invariant ScanStop(b0, bound, 0) == ScanStop(b0, bound, index - 1)
      invariant bits[..] == if bit then b0 else b0[index - 1 := true]
      decreases bound + 1 - index
    {
      bit := bits[index];
      if !bit {
        bits[index] := true;
      }
      index := index + 1;
    }
    if index - 1 >= bound {
      r := -1;
    } else {
      r := index - 1;
    }
  }

  /** The inner for-loop of the directory scans: the first of the first `cnt` entries of a
      block that matches `name`, or -1. */
  method FirstMatch(ents: seq<Dirent>, cnt: nat, name: seq<char>) returns (i: int)
    requires cnt <= |ents|
    ensures -1 <= i < cnt
    ensures i >= 0 ==> Matches(ents[i], name)
    ensures forall t :: 0 <= t < cnt && (i == -1 || t < i) ==> !Matches(ents[t], name)
  {
    i := 0;
    while i < cnt
      invariant 0 <= i <= cnt
      invariant forall t :: 0 <= t < i ==> !Matches(ents[t], name)
    {
      if Matches(ents[i], name) {
        return;
      }
      i := i + 1;
    }
    i := -1;
  }

  /** A match at slot i of the block that holds scanned entries consumed.. is the first one
      the scan finds, given none before. */
  lemma FoundAt(s: seq<Dirent>, name: seq<char>, consumed: nat, ents: seq<Dirent>, i: nat)
    requires i < |ents| && consumed + i < |s| && Matches(ents[i], name)
    requires forall t :: 0 <= t <= i ==> s[consumed + t] == ents[t]
    requires forall j :: 0 <= j < consumed ==> !Matches(s[j], name)
    requires forall t :: 0 <= t < i ==> !Matches(ents[t], name)
    ensures Find(s, name) == Some(consumed + i) && s[consumed + i] == ents[i]
  {
    forall j | 0 <= j < consumed + i
      ensures !Matches(s[j], name)
    {
      if j >= consumed {
        assert s[consumed + (j - consumed)] == ents[j - consumed];
      }
    }
    assert s[consumed + i] == ents[i];
    FindFirst(s, name, consumed + i);
  }

  /** Bits only get set. */
  predicate OnlySet(a: seq<bool>, b: seq<bool>) {
    |a| == |b| && forall i :: 0 <= i < |a| && a[i] ==> b[i]
  }

  /** Every data block is taken. */
  predicate DataFull(bm: seq<bool>) {
    forall i :: 0 <= i < MAX_DNUM - D_START_BLK && i < |bm| ==> bm[i]
  }

  /** Bits only get cleared. */
  predicate OnlyCleared(a: seq<bool>, b: seq<bool>) {
    |a| == |b| && forall i :: 0 <= i < |a| && b[i] ==> a[i]
  }

  /** get_avail_blkno's bound: bit i of the data bitmap stands for block D_START_BLK + i. */
  const DATA_BOUND: nat := MAX_DNUM - D_START_BLK

  /** How many blocks dir_add claims on its way to entry number Count(inode): a direct
      block whose pointer is unset; in an indirect group, the pointer block when it is unset
      and the data block when the entry starts it; none past the last group. */
  function ClaimsFor(inode: Inode): nat {
    var n := Count(inode);
    var lb := n / DIRENTS_PER_BLOCK;
    if lb < NUM_DIRECT then (if inode.direct[lb] == UNALLOCATED then 1 else 0)
    else if lb >= MAX_LBLOCKS then 0
    else (if inode.indirect[GroupOf(lb)] == UNALLOCATED then 1 else 0)
         + (if n % DIRENTS_PER_BLOCK == 0 then 1 else 0)
  }

  /** In a valid directory dir_add claims blocks only for an entry that starts a new block
      past the live ones: the next slot of a partly filled block always exists. */
  lemma ClaimsAtBlockStart(d: Disk, inode: Inode, bm: seq<bool>)
    requires DirValid(d, inode, bm)
    ensures ClaimsFor(inode) > 0 ==>
      Count(inode) % DIRENTS_PER_BLOCK == 0 && BlocksFor(Count(inode)) <= Count(inode) / DIRENTS_PER_BLOCK
  {
    if ClaimsFor(inode) > 0 {
      NewBlockSlot(inode, bm, d, Count(inode) / DIRENTS_PER_BLOCK);
    }
  }

  /** The pointer block and slot of an indirect logical block, with the sum they add up to. */
  method SplitLb(lb: nat) returns (g: nat, k: nat)
    requires NUM_DIRECT <= lb < MAX_LBLOCKS
    ensures g == GroupOf(lb) && k == IndexInGroup(lb)
    ensures lb == NUM_DIRECT + g * PTRS_PER_BLOCK + k && g < NUM_INDIRECT && k < PTRS_PER_BLOCK
  {
    g, k := GroupOf(lb), IndexInGroup(lb);
  }

  /** Slot k of pointer block g holds the pointer of logical block 16 + g * 1024 + k. */
  lemma GroupPtr(d: Disk, inode: Inode, g: nat, k: nat)
    requires g < NUM_INDIRECT && k < PTRS_PER_BLOCK
    ensures NUM_DIRECT + g * PTRS_PER_BLOCK + k < MAX_LBLOCKS
    ensures PtrsOf(Get(d, inode.indirect[g]))[k] == PtrAt(d, inode, NUM_DIRECT + g * PTRS_PER_BLOCK + k)
  {
    GroupPosition(g, k);
  }

  /** One block of that inner loop: block k of pointer block g read whole, and the first of
      its first cnt entries that matches the name. nd is the number of entries the size
      still has from this block on. */
  method ReadGroupBlock(d: Disk, inode0: Inode, g: nat, k: nat, ptrs: seq<int>, cnt: nat, name: seq<char>,
                      ghost lb0: nat, ghost n: nat, ghost nd: int, ghost unique: bool)
    returns (ents: seq<Dirent>, i: int)
    requires NUM_DIRECT <= lb0 < MAX_LBLOCKS && g == GroupOf(lb0) && IndexInGroup(lb0) < k < PTRS_PER_BLOCK
    requires ptrs == PtrsOf(Get(d, inode0.indirect[g]))
    requires cnt == Min(nd, DIRENTS_PER_BLOCK) && n - nd == (NUM_DIRECT + g * PTRS_PER_BLOCK + k) * DIRENTS_PER_BLOCK
    requires unique ==> NoMatchAfter(d, inode0, lb0, n, name)
    ensures NUM_DIRECT + g * PTRS_PER_BLOCK + k < MAX_LBLOCKS
    ensures ents == DirentsOf(Get(d, ptrs[k]))
    ensures ents == DirentsOf(Get(d, PtrAt(d, inode0, NUM_DIRECT + g * PTRS_PER_BLOCK + k)))
    ensures -1 <= i < cnt && (i >= 0 ==> Matches(ents[i], name))
    ensures unique ==> i == -1
  {
    var lb := NUM_DIRECT + g * PTRS_PER_BLOCK + k;
    GroupPosition(g, k);
    ents := DirentsOf(Get(d, ptrs[k]));
    i := FirstMatch(ents, cnt, name);
    if i >= 0 && unique {
      LaterMatch(d, inode0, lb0, n, lb, i, ents, name, nd);
    }
  }

  /** The rest of the inner loop over a pointer block once an entry has matched in block
      lb0: as written it goes on while entries remain by the decremented size, reading each
      next block into the buffer of the match, and any later entry that matches becomes
      the one to remove (`moved`), the size decremented again. When such a match is alone
      at slot 0 of the last block, `lone` says the code takes its early exit there, with
      `inode` the record before that decrement. The model stops at the end of the pointer
      block. n is the entry count the scan started from; `unique` says, for the proof only,
      that no entry past block lb0 matches. */
  method ContinueGroup(d: Disk, inode0: Inode, lb0: nat, name: seq<char>, sizeRead0: nat, numDirents0: int,
                     remBlk0: int, remSlot0: nat, buf0: seq<Dirent>, ghost n: nat, ghost unique: bool)
    returns (lone: bool, inode: Inode, remBlk: int, remSlot: nat, buf: seq<Dirent>, numDirents: int,
             lbm: nat, ghost moved: bool)
    requires NUM_DIRECT <= lb0 < MAX_LBLOCKS && |buf0| == DIRENTS_PER_BLOCK && remSlot0 < DIRENTS_PER_BLOCK
    requires (n - 1) * DIRENT_SIZE <= inode0.size < n * DIRENT_SIZE
    requires 0 <= numDirents0 && sizeRead0 == (n - numDirents0) * DIRENT_SIZE
    requires numDirents0 == 0 || n - numDirents0 == (lb0 + 1) * DIRENTS_PER_BLOCK
    requires unique ==> NoMatchAfter(d, inode0, lb0, n, name)
    ensures lb0 <= lbm < MAX_LBLOCKS && |buf| == DIRENTS_PER_BLOCK && remSlot < DIRENTS_PER_BLOCK
    ensures numDirents >= 0
    ensures sizeRead0 >= inode0.size ==> lbm == lb0
    ensures IndexInGroup(lb0) < PTRS_PER_BLOCK - 1 && sizeRead0 < inode0.size ==> lbm > lb0
    ensures lbm == lb0 ==> buf == buf0 && numDirents == numDirents0 && !moved
    ensures lbm > lb0 ==>
      buf == DirentsOf(Get(d, PtrAt(d, inode0, lbm))) && lbm * DIRENTS_PER_BLOCK * DIRENT_SIZE < inode0.size
    ensures !moved ==> !lone && inode == inode0 && remBlk == remBlk0 && remSlot == remSlot0
    ensures unique ==> !moved
    ensures lone ==> inode.size >= DIRENT_SIZE
  {
    var g, k := SplitLb(lb0);
    var ptrs := PtrsOf(Get(d, inode0.indirect[g]));
    var size, ents;
    lone, ents, size, remBlk, remSlot, numDirents, lbm, k, moved :=
      ReadOnGroup(d, inode0, lb0, name, g, k + 1, ptrs, sizeRead0, numDirents0, remBlk0, remSlot0, n, unique);
    inode := inode0.(size := size);
    buf := buf0;
    if lone {
      buf := ents;
      return;
    }
    if lbm > lb0 {
      GroupPtr(d, inode0, g, k - 1);
      buf := DirentsOf(Get(d, ptrs[k - 1]));
    }
  }

  /** The loop of ContinueGroup from slot k0 of pointer block g on: the blocks read, the
      size decremented at each later match, and the early exit at a lone one (`lone`, with
      `ents` the block it was found in and `size` the size before that decrement). */
  method ReadOnGroup(d: Disk, inode0: Inode, lb0: nat, name: seq<char>, g: nat, k0: nat, ptrs: seq<int>,
                     sizeRead0: nat, numDirents0: int, remBlk0: int, remSlot0: nat, ghost n: nat,
                     ghost unique: bool)
    returns (lone: bool, ents: seq<Dirent>, size: nat, remBlk: int, remSlot: nat, numDirents: int, lbm: nat,
             k: nat, ghost moved: bool)
    requires NUM_DIRECT <= lb0 < MAX_LBLOCKS && g == GroupOf(lb0) && k0 == IndexInGroup(lb0) + 1
    requires ptrs == PtrsOf(Get(d, inode0.indirect[g])) && remSlot0 < DIRENTS_PER_BLOCK
    requires (n - 1) * DIRENT_SIZE <= inode0.size < n * DIRENT_SIZE
    requires 0 <= numDirents0 && sizeRead0 == (n - numDirents0) * DIRENT_SIZE
    requires numDirents0 == 0 || n - numDirents0 == (lb0 + 1) * DIRENTS_PER_BLOCK
    requires unique ==> NoMatchAfter(d, inode0, lb0, n, name)
    ensures lb0 <= lbm < MAX_LBLOCKS && remSlot < DIRENTS_PER_BLOCK && numDirents >= 0
    ensures k0 <= k <= PTRS_PER_BLOCK && (!lone ==> lbm + 1 == NUM_DIRECT + g * PTRS_PER_BLOCK + k)
    ensures sizeRead0 >= inode0.size ==> lbm == lb0
    ensures !lone && k0 < PTRS_PER_BLOCK && sizeRead0 < inode0.size ==> lbm > lb0
    ensures lbm == lb0 ==> numDirents == numDirents0 && !moved && !lone
    ensures lbm > lb0 ==> lbm * DIRENTS_PER_BLOCK * DIRENT_SIZE < inode0.size
    ensures lone ==>
      && |ents| == DIRENTS_PER_BLOCK && ents == DirentsOf(Get(d, PtrAt(d, inode0, lbm))) && size >= DIRENT_SIZE
    ensures !moved ==> !lone && size == inode0.size && remBlk == remBlk0 && remSlot == remSlot0
    ensures unique ==> !moved
  {
    k := k0;
    var sizeRead := sizeRead0;
    size := inode0.size;
    lone, ents, remBlk, remSlot, numDirents, lbm, moved := false, [], remBlk0, remSlot0, numDirents0, lb0, false;
    while k < PTRS_PER_BLOCK && sizeRead < size
      invariant k0 <= k <= PTRS_PER_BLOCK
      invariant lbm + 1 == NUM_DIRECT + g * PTRS_PER_BLOCK + k
      invariant 0 <= numDirents && sizeRead == (n - numDirents) * DIRENT_SIZE
      invariant numDirents == 0 || n - numDirents == (lbm + 1) * DIRENTS_PER_BLOCK
      invariant numDirents * DIRENT_SIZE <= size <= inode0.size
      invariant remSlot < DIRENTS_PER_BLOCK
      invariant lbm == lb0 ==> numDirents == numDirents0 && !moved
      invariant sizeRead0 >= inode0.size ==> lbm == lb0
      invariant lbm > lb0 ==> lbm * DIRENTS_PER_BLOCK * DIRENT_SIZE < inode0.size
      invariant !moved ==> size == inode0.size && remBlk == remBlk0 && remSlot == remSlot0
      invariant unique ==> !moved
      decreases PTRS_PER_BLOCK - k
    {
      var cnt := if numDirents > DIRENTS_PER_BLOCK then DIRENTS_PER_BLOCK else numDirents;
      var lb := NUM_DIRECT + g * PTRS_PER_BLOCK + k;
      var b, i := ReadGroupBlock(d, inode0, g, k, ptrs, cnt, name, lb0, n, numDirents, unique);
      if i >= 0 {
        moved := true;
        remBlk, remSlot := ptrs[k], i;
        if i == 0 && cnt == 1 {
          lone, lbm, ents := true, lb, b;
          return;
        }
        size := size - DIRENT_SIZE;
      }
      numDirents := numDirents - cnt;
      sizeRead := sizeRead + cnt * DIRENT_SIZE;
      k := k + 1;
      lbm := lb;
    }
  }

  class Fs {
    /** The block device. */
    var disk: Disk
    /** The inode and data-block bitmaps, loaded at mount time and used in memory. */
    const inodeBitmap: array<bool>
    const dataBitmap: array<bool>

    ghost predicate Valid() {
      inodeBitmap.Length == BITMAP_BITS && dataBitmap.Length == BITMAP_BITS
      && inodeBitmap != dataBitmap
    }

    /** rufs_mkfs: format a new disk. The in-memory bitmaps are one whole block each, as
        mounting loads them, so that both allocators' scans stay inside them; the root
        directory takes the first inode number the allocator hands out. */
    constructor Mkfs()
      ensures Valid() && fresh(inodeBitmap) && fresh(dataBitmap)
      ensures disk == FormattedDisk()
      ensures inodeBitmap[..] == seq(BITMAP_BITS, _ => false)[0 := true]
      ensures dataBitmap[..] == seq(BITMAP_BITS, _ => false)
    {
      inodeBitmap := new bool[BITMAP_BITS](_ => false);
      dataBitmap := new bool[BITMAP_BITS](_ => false);
      disk := map[];
      new;
      assert inodeBitmap[..] == seq(BITMAP_BITS, _ => false) == dataBitmap[..];
      disk := disk[SUPERBLOCK_BLK := SuperBlk(FORMAT_SUPERBLOCK)];
      disk := disk[I_BITMAP_BLK := BitmapBlk(inodeBitmap[..])];
      disk := disk[D_BITMAP_BLK := BitmapBlk(dataBitmap[..])];
      ghost var clear := inodeBitmap[..];
      var rootIno := GetAvailIno();
      assert ScanStop(clear, MAX_INUM, 0) == 0;
      var root := NewInode(rootIno, S_IFDIR, 2, (S_IFDIR_BITS | 0x1ED) as int);
      assert root == ROOT;
      disk := disk[I_START_BLK := InodeBlk([root] + seq(INODES_PER_BLOCK - 1, _ => ZERO_INODE))];
    }

    /** get_avail_ino: claim the lowest free inode number, or -1 when all MAX_INUM are used. */
    method GetAvailIno() returns (r: int)
      requires Valid()
      modifies inodeBitmap
      ensures inodeBitmap[..] == AllocBits(old(inodeBitmap[..]), MAX_INUM)
      ensures r == AllocIndex(old(inodeBitmap[..]), MAX_INUM)
    {
      r := ClaimFirstClear(inodeBitmap, MAX_INUM);
    }

    /** get_avail_blkno: claim the lowest free data block; bit i stands for block
        D_START_BLK + i, and the answer is -1 once that would reach MAX_DNUM. */
    method GetAvailBlkno() returns (r: int)
      requires Valid()
      modifies dataBitmap
      ensures dataBitmap[..] == AllocBits(old(dataBitmap[..]), MAX_DNUM - D_START_BLK)
      ensures var k := AllocIndex(old(dataBitmap[..]), MAX_DNUM - D_START_BLK);
        r == if k == -1 then -1 else D_START_BLK + k
    {
      var index := ClaimFirstClear(dataBitmap, MAX_DNUM - D_START_BLK);
      if index == -1 {
        r := -1;
      } else {
        r := D_START_BLK + index;
      }
    }

    /** writei. */
    method Writei(ino: u16, v: Inode)
      modifies this
      ensures disk == WriteInode(old(disk), ino, v)
    {
      disk := WriteInode(disk, ino, v);
    }

    /** One block of the dir_find scan: block `blk`, which the model numbers `lb`, holds
        the next min(numDirents, 19) entries; the first of them that matches, or -1. */
    method ScanBlock(inode: Inode, ghost lb: nat, blk: int, name: seq<char>, numDirents: int)
      returns (i: int, entry: Dirent, cnt: nat)
      requires lb < MAX_LBLOCKS && blk == PtrAt(disk, inode, lb)
      requires 0 <= numDirents <= Count(inode)
      requires numDirents > 0 ==> Count(inode) - numDirents == lb * DIRENTS_PER_BLOCK
      requires Count(inode) - numDirents + Min(numDirents, DIRENTS_PER_BLOCK) <= ScanLimit(inode)
      requires forall j :: 0 <= j < Count(inode) - numDirents ==>
        !Matches(Scanned(disk, inode)[j], name)
      ensures cnt == Min(numDirents, DIRENTS_PER_BLOCK) && -1 <= i < cnt
      ensures i >= 0 ==>
        && Find(Scanned(disk, inode), name) == Some(Count(inode) - numDirents + i)
        && entry == Scanned(disk, inode)[Count(inode) - numDirents + i]
      ensures i == -1 ==> forall j :: 0 <= j < Count(inode) - numDirents + cnt ==>
        !Matches(Scanned(disk, inode)[j], name)
    {
      ghost var s := Scanned(disk, inode);
      ghost var consumed := Count(inode) - numDirents;
      cnt := if numDirents > DIRENTS_PER_BLOCK then DIRENTS_PER_BLOCK else numDirents;
      var ents := DirentsOf(Get(disk, blk));
      ScanBlockEntries(disk, inode, lb, consumed, cnt);
      i := FirstMatch(ents, cnt, name);
      entry := ZERO_DIRENT;
      if i >= 0 {
        FoundAt(s, name, consumed, ents, i);
        entry := ents[i];
      } else {
        forall j | consumed <= j < consumed + cnt
          ensures !Matches(s[j], name)
        {
          assert s[consumed + (j - consumed)] == ents[j - consumed];
        }
      }
    }

    /** The inner loop of the indirect part of the directory scan: the data blocks that
        pointer block g lists, in order, for as long as entries remain. On a match, lb is the
        block's logical number and blk its number on disk. */
    method ScanGroup(inode: Inode, g: nat, name: seq<char>, sizeRead0: nat, numDirents0: int)
      returns (i: int, lb: nat, cnt: nat, blk: int, sizeRead: nat, numDirents: int)
      requires g < NUM_INDIRECT
      requires forall l :: 0 <= l < NUM_DIRECT ==> inode.direct[l] != UNALLOCATED
      requires forall h :: 0 <= h <= g ==> inode.indirect[h] != UNALLOCATED
      requires 0 <= numDirents0 <= Count(inode) && sizeRead0 == (Count(inode) - numDirents0) * DIRENT_SIZE
      requires numDirents0 == 0 || Count(inode) - numDirents0 == (NUM_DIRECT + g * PTRS_PER_BLOCK) * DIRENTS_PER_BLOCK
      requires Count(inode) - numDirents0 <= ScanLimit(inode)
      requires forall j :: 0 <= j < Count(inode) - numDirents0 ==> !Matches(Scanned(disk, inode)[j], name)
      ensures -1 <= i
      ensures i >= 0 ==>
        && lb < MAX_LBLOCKS && i < cnt
        && cnt == Min(Count(inode) - lb * DIRENTS_PER_BLOCK, DIRENTS_PER_BLOCK)
        && Find(Scanned(disk, inode), name) == Some(lb * DIRENTS_PER_BLOCK + i)
        && blk == PtrAt(disk, inode, lb)
      ensures i < 0 ==>
        && 0 <= numDirents <= Count(inode) && sizeRead == (Count(inode) - numDirents) * DIRENT_SIZE
        && (numDirents == 0 || Count(inode) - numDirents == (NUM_DIRECT + (g + 1) * PTRS_PER_BLOCK) * DIRENTS_PER_BLOCK)
        && Count(inode) - numDirents <= ScanLimit(inode)
        && forall j :: 0 <= j < Count(inode) - numDirents ==> !Matches(Scanned(disk, inode)[j], name)
    {
      ghost var s := Scanned(disk, inode);
      ghost var n := Count(inode);
      sizeRead, numDirents := sizeRead0, numDirents0;
      var ptrs := PtrsOf(Get(disk, inode.indirect[g]));
      var k := 0;
      while k < PTRS_PER_BLOCK && sizeRead < inode.size
        invariant 0 <= k <= PTRS_PER_BLOCK
        invariant 0 <= numDirents <= n && sizeRead == (n - numDirents) * DIRENT_SIZE
        invariant numDirents == 0 || n - numDirents == (NUM_DIRECT + g * PTRS_PER_BLOCK + k) * DIRENTS_PER_BLOCK
        invariant n - numDirents <= ScanLimit(inode)
        invariant forall j :: 0 <= j < n - numDirents ==> !Matches(s[j], name)
      {
        GroupPosition(g, k);
        ScanIndirectStep(inode, g, k);
        var e;
        lb := NUM_DIRECT + g * PTRS_PER_BLOCK + k;
        i, e, cnt := ScanBlock(inode, lb, ptrs[k], name, numDirents);
        if i >= 0 {
          blk := ptrs[k];
          return;
        }
        numDirents := numDirents - cnt;
        sizeRead := sizeRead + cnt * DIRENT_SIZE;
        k := k + 1;
      }
      i, lb, cnt, blk := -1, 0, 0, UNALLOCATED;
    }

    /** The direct part of the directory scan: direct blocks in order while their pointers
        are set and entries remain. On a match, dBlk is its block and blk that block's number. */
    method ScanDirect(inode: Inode, name: seq<char>)
      returns (i: int, dBlk: nat, cnt: nat, blk: int, sizeRead: nat, numDirents: int)
      ensures -1 <= i
      ensures i >= 0 ==>
        && dBlk < NUM_DIRECT && i < cnt
        && cnt == Min(Count(inode) - dBlk * DIRENTS_PER_BLOCK, DIRENTS_PER_BLOCK)
        && Find(Scanned(disk, inode), name) == Some(dBlk * DIRENTS_PER_BLOCK + i)
        && blk == PtrAt(disk, inode, dBlk)
      ensures i < 0 ==>
        && dBlk <= NUM_DIRECT
        && (dBlk < NUM_DIRECT ==> inode.direct[dBlk] == UNALLOCATED || numDirents == 0)
        && (forall k :: 0 <= k < dBlk ==> inode.direct[k] != UNALLOCATED)
        && 0 <= numDirents <= Count(inode)
        && Count(inode) - numDirents == Min(dBlk * DIRENTS_PER_BLOCK, Count(inode))
        && sizeRead == (Count(inode) - numDirents) * DIRENT_SIZE && Count(inode) - numDirents <= ScanLimit(inode)
        && forall j :: 0 <= j < Count(inode) - numDirents ==> !Matches(Scanned(disk, inode)[j], name)
    {
      ghost var s := Scanned(disk, inode);
      ghost var lim := ScanLimit(inode);
      var n := inode.size / DIRENT_SIZE;
      dBlk := 0;
      sizeRead := 0;
      numDirents := n;
      while dBlk < NUM_DIRECT && inode.direct[dBlk] != UNALLOCATED && sizeRead < inode.size
        invariant 0 <= dBlk <= NUM_DIRECT
        invariant forall k :: 0 <= k < dBlk ==> inode.direct[k] != UNALLOCATED
        invariant n - numDirents == Min(dBlk * DIRENTS_PER_BLOCK, n)
        invariant sizeRead == (n - numDirents) * DIRENT_SIZE && n - numDirents <= lim
        invariant forall j :: 0 <= j < n - numDirents ==> !Matches(s[j], name)
      {
        ScanDirectStep(inode, dBlk);
        var e;
        i, e, cnt := ScanBlock(inode, dBlk, inode.direct[dBlk], name, numDirents);
        if i >= 0 {
          blk := inode.direct[dBlk];
          return;
        }
        numDirents := numDirents - cnt;
        sizeRead := sizeRead + cnt * DIRENT_SIZE;
        dBlk := dBlk + 1;
      }
      i, cnt, blk := -1, 0, UNALLOCATED;
    }

    /** The indirect part of the directory scan: for each set indirect pointer in turn, the
        blocks its pointer block lists, while entries remain. It starts where the direct part
        stopped; on a match, lb is the entry's logical block, otherwise the scan's final
        position is returned. */
    method ScanIndirect(inode: Inode, name: seq<char>, dBlk0: nat, sizeRead0: int, numDirents0: int)
      returns (lb: int, i: int, cnt: nat, blk: int, dBlk: nat, numDirents: int, ghost lbs: nat)
      requires dBlk0 <= NUM_DIRECT
      requires dBlk0 < NUM_DIRECT ==> inode.direct[dBlk0] == UNALLOCATED || numDirents0 == 0
      requires forall k :: 0 <= k < dBlk0 ==> inode.direct[k] != UNALLOCATED
      requires 0 <= numDirents0 <= Count(inode)
      requires numDirents0 == 0 || Count(inode) - numDirents0 == dBlk0 * DIRENTS_PER_BLOCK
      requires sizeRead0 == (Count(inode) - numDirents0) * DIRENT_SIZE && Count(inode) - numDirents0 <= ScanLimit(inode)
      requires forall j :: 0 <= j < Count(inode) - numDirents0 ==> !Matches(Scanned(disk, inode)[j], name)
      ensures -1 <= i
      ensures i >= 0 ==>
        && 0 <= lb < MAX_LBLOCKS && i < cnt
        && cnt == Min(Count(inode) - lb * DIRENTS_PER_BLOCK, DIRENTS_PER_BLOCK)
        && Find(Scanned(disk, inode), name) == Some(lb * DIRENTS_PER_BLOCK + i)
        && blk == PtrAt(disk, inode, lb)
      ensures i < 0 ==>
        && dBlk <= NUM_DIRECT + NUM_INDIRECT
        && (dBlk < NUM_DIRECT ==> lbs == dBlk && (inode.direct[dBlk] == UNALLOCATED || numDirents == 0))
        && (forall k :: 0 <= k < dBlk && k < NUM_DIRECT ==> inode.direct[k] != UNALLOCATED)
        && (NUM_DIRECT <= dBlk ==>
              (forall g :: 0 <= g < dBlk - NUM_DIRECT ==> inode.indirect[g] != UNALLOCATED)
              && (numDirents == 0 || lbs == NUM_DIRECT + (dBlk - NUM_DIRECT) * PTRS_PER_BLOCK))
        && (dBlk < NUM_DIRECT + NUM_INDIRECT && NUM_DIRECT <= dBlk ==>
              inode.indirect[dBlk - NUM_DIRECT] == UNALLOCATED || numDirents == 0)
        && 0 <= numDirents <= Count(inode)
        && (numDirents == 0 || Count(inode) - numDirents == lbs * DIRENTS_PER_BLOCK)
        && Count(inode) - numDirents <= ScanLimit(inode)
        && forall j :: 0 <= j < Count(inode) - numDirents ==> !Matches(Scanned(disk, inode)[j], name)
    {
      ghost var s := Scanned(disk, inode);
      ghost var n := Count(inode);
      var sizeRead := sizeRead0;
      dBlk, numDirents, lbs := dBlk0, numDirents0, dBlk0;
      while NUM_DIRECT <= dBlk < NUM_DIRECT + NUM_INDIRECT
        && inode.indirect[dBlk - NUM_DIRECT] != UNALLOCATED && sizeRead < inode.size
        invariant dBlk <= NUM_DIRECT + NUM_INDIRECT
        invariant dBlk < NUM_DIRECT ==>
          lbs == dBlk && (inode.direct[dBlk] == UNALLOCATED || numDirents == 0)
        invariant forall k :: 0 <= k < dBlk && k < NUM_DIRECT ==> inode.direct[k] != UNALLOCATED
        invariant NUM_DIRECT <= dBlk ==>
          (forall g :: 0 <= g < dBlk - NUM_DIRECT ==> inode.indirect[g] != UNALLOCATED)
          && (numDirents == 0 || lbs == NUM_DIRECT + (dBlk - NUM_DIRECT) * PTRS_PER_BLOCK)
        invariant 0 <= numDirents <= n && (numDirents == 0 || n - numDirents == lbs * DIRENTS_PER_BLOCK)
        invariant sizeRead == (n - numDirents) * DIRENT_SIZE && n - numDirents <= ScanLimit(inode)
        invariant forall j :: 0 <= j < n - numDirents ==> !Matches(s[j], name)
        decreases NUM_DIRECT + NUM_INDIRECT - dBlk
      {
        var g := dBlk - NUM_DIRECT;
        var l;
        i, l, cnt, blk, sizeRead, numDirents := ScanGroup(inode, g, name, sizeRead, numDirents);
        if i >= 0 {
          lb := l;
          return;
        }
        lbs := NUM_DIRECT + (g + 1) * PTRS_PER_BLOCK;
        dBlk := dBlk + 1;
      }
      lb, i, cnt, blk := -1, -1, 0, UNALLOCATED;
    }

    /** The scan dir_find and dir_remove share: the direct blocks while their pointers are
        set, then the blocks each set indirect pointer lists, as far as the entry count
        reaches, stopping at the first entry that matches. lb is that entry's logical block
        (-1 when none matches), i its slot, cnt the number of entries the scan counts in that
        block and blk the block's number. */
    method LocateEntry(inode: Inode, name: seq<char>) returns (lb: int, i: nat, cnt: nat, blk: int)
      ensures -1 <= lb && (lb == -1 <==> Find(Scanned(disk, inode), name).None?)
      ensures lb >= 0 ==>
        && lb < MAX_LBLOCKS && i < cnt
        && cnt == Min(Count(inode) - lb * DIRENTS_PER_BLOCK, DIRENTS_PER_BLOCK)
        && Find(Scanned(disk, inode), name) == Some(lb * DIRENTS_PER_BLOCK + i)
        && blk == PtrAt(disk, inode, lb)
    {
      var slot, dBlk, c, b, sizeRead, numDirents := ScanDirect(inode, name);
      if slot >= 0 {
        return dBlk, slot, c, b;
      }
      var l, sl, dEnd, nd;
      ghost var lbs;
      l, sl, c, b, dEnd, nd, lbs := ScanIndirect(inode, name, dBlk, sizeRead, numDirents);
      if sl >= 0 {
        return l, sl, c, b;
      }
      if nd != 0 {
        ScanEnds(inode, dEnd, lbs);
      }
      FindNone(Scanned(disk, inode), name);
      lb, i, cnt, blk := -1, 0, 0, UNALLOCATED;
    }

    /** dir_find: the scan of directory `ino` for `name`, block by block, as far as the entry
        count and the allocated pointers reach. */
    method DirFind(ino: u16, name: seq<char>) returns (r: int, entry: Dirent)
      ensures r == 0 || r == -1
      ensures r == 0 <==> Lookup(disk, ino, name).Some?
      ensures r == 0 ==> entry == Lookup(disk, ino, name).value
    {
      var inode := ReadInode(disk, ino);
      var lb, i, _, blk := LocateEntry(inode, name);
      if lb == -1 {
        return -1, ZERO_DIRENT;
      }
      EntryPosition(lb, i);
      entry := DirentsOf(Get(disk, blk))[i];
      r := 0;
    }

    /** The branch of get_node_by_path's loop where a '/' or the last character closes the
        component from fname on: its length `len`, and dir_find of it in directory cur.
        status -1 when it is not found; 1 at the last character, with the inode of the entry
        found; 0 after a '/', with `next` the directory the rest of the path starts from. t
        is the path without its leading '/'. */
    method CloseComponent(path: seq<char>, cur: u16, fname: nat, strIndex: nat, nameLen: nat, length: nat,
                          ghost t: seq<char>)
      returns (status: int, len: nat, next: u16, inode: Inode)
      requires 1 <= fname <= strIndex < |path| && t == path[1..] && length == |path| - strIndex
      requires nameLen == strIndex - fname + 1 && (path[strIndex] == '/' || length == 1)
      ensures status == -1 || status == 0 || status == 1
      ensures status == -1 ==> ResolveChars(disk, cur, t, fname - 1, strIndex - 1) == None
      ensures status == 1 ==> length == 1 && ResolveChars(disk, cur, t, fname - 1, strIndex - 1) == Some(inode)
      ensures status == 0 ==>
        && length > 1 && fname + len + 1 == strIndex + 1
        && ResolveChars(disk, cur, t, fname - 1, strIndex - 1) == ResolveChars(disk, next, t, strIndex, strIndex)
    {
      len := if length == 1 then nameLen else nameLen - 1;
      var name := path[fname..fname + len];
      TailSlice(path, fname, fname + len);
      CloseStep(disk, cur, t, fname - 1, strIndex - 1, name);
      var found, entry := DirFind(cur, name);
      next, inode := entry.ino, ZERO_INODE;
      if found < 0 {
        return -1, len, next, inode;
      }
      if length == 1 {
        return 1, len, next, ReadInode(disk, entry.ino);
      }
      status := 0;
    }

    /** get_node_by_path: resolve an absolute path from directory `ino`, one component at a
        time, looking each one up with dir_find. */
    method GetNodeByPath(path: seq<char>, ino: u16) returns (r: int, inode: Inode)
      requires |path| >= 1 && path[0] == '/'
      ensures r == 0 || r == -1
      ensures r == 0 <==> ResolvePath(disk, path, ino).Some?
      ensures r == 0 ==> inode == ResolvePath(disk, path, ino).value
    {
      var length := |path|;
      if length == 1 {
        return 0, ReadInode(disk, ino);
      }
      ghost var t := path[1..];
      ResolveCharsIsResolve(disk, ino, t, 0, 0);
      ghost var goal := ResolvePath(disk, path, ino);
      inode := ZERO_INODE;
      var cur := ino;
      var fname := 1;
      var strIndex := 1;
      length := length - 1;
      var nameLen := 1;
      while length > 0
        invariant 1 <= fname <= strIndex < |path| && length == |path| - strIndex
        invariant nameLen == strIndex - fname + 1
        invariant ResolveChars(disk, cur, t, fname - 1, strIndex - 1) == goal
        decreases length
      {
        if path[strIndex] == '/' || length == 1 {
          var status, len, next, found;
          status, len, next, found := CloseComponent(path, cur, fname, strIndex, nameLen, length, t);
          if status < 0 {
            return -1, inode;
          }
          if status > 0 {
            inode := found;
            break;
          }
          cur := next;
          fname := fname + len + 1;
          nameLen := 1;
        } else {
          nameLen := nameLen + 1;
        }
        strIndex := strIndex + 1;
        length := length - 1;
      }
      return 0, inode;
    }


    /** dir_add's first allocation case: direct block lb, the next one to fill, is missing;
        claim a data block for it and write the inode. */
    method AddDirectBlock(inode: Inode, lb: nat) returns (r: int, ni: Inode)
      requires Valid() && lb < NUM_DIRECT && inode.direct[lb] == UNALLOCATED
      requires lb == Count(inode) / DIRENTS_PER_BLOCK
      modifies this, dataBitmap
      ensures r == 0 || r == -ENOMEM
      ensures OnlySet(old(dataBitmap[..]), dataBitmap[..])
      ensures r == -ENOMEM ==> DataFull(dataBitmap[..]) && disk == old(disk) && ni == inode
      ensures r == 0 ==> ni == inode.(direct := ni.direct) && ni.direct[lb] != UNALLOCATED
      ensures dataBitmap[..] == AllocBits(old(dataBitmap[..]), DATA_BOUND)
      ensures r == -ENOMEM <==> AllocIndex(old(dataBitmap[..]), DATA_BOUND) == -1
      ensures r == 0 ==>
        && ni == inode.(direct := inode.direct[lb := D_START_BLK + AllocIndex(old(dataBitmap[..]), DATA_BOUND)])
        && disk == WriteInode(old(disk), ni.ino, ni)
      ensures Consistent(old(disk), inode, old(dataBitmap[..])) ==>
        && Staged(old(disk), inode, disk, ni, dataBitmap[..])
        && (r == 0 ==> Ready(disk, ni, dataBitmap[..], lb, Entries(old(disk), inode)))
        && Count(inode) % DIRENTS_PER_BLOCK == 0
    {
      ghost var d0 := disk;
      ghost var bm0 := dataBitmap[..];
      ghost var h := Consistent(d0, inode, bm0);
      if h {
        NewBlockSlot(inode, bm0, d0, lb);
      }
      ni := inode;
      var blk := GetAvailBlkno();
      AllocSpec(bm0, MAX_DNUM - D_START_BLK);
      if blk == -1 {
        if h {
          GrowBitmap(d0, inode, bm0, dataBitmap[..]);
        }
        return -ENOMEM, inode;
      }
      ni := inode.(direct := inode.direct[lb := blk]);
      if h {
        AttachDirect(d0, inode, bm0, lb, blk, ni, dataBitmap[..]);
        assert Ready(d0, ni, dataBitmap[..], lb, Entries(d0, inode));
        ReadyAfterInodeWrite(d0, ni, dataBitmap[..], lb, Entries(d0, inode), ni.ino, ni);
      }
      Writei(ni.ino, ni);
      WriteKeepsOthers(d0, ni.ino, ni);
      ReadAfterWrite(d0, ni.ino, ni);
      r := 0;
    }

    /** dir_add's pointer-block case: indirect pointer g is unset; claim a block for it,
        fill it with unset pointers and write the inode. */
    method AddPointerBlock(inode: Inode, g: nat) returns (r: int, ni: Inode)
      requires Valid() && g < NUM_INDIRECT && inode.indirect[g] == UNALLOCATED
      modifies this, dataBitmap
      ensures r == 0 || r == -ENOMEM
      ensures OnlySet(old(dataBitmap[..]), dataBitmap[..])
      ensures r == -ENOMEM ==> DataFull(dataBitmap[..]) && disk == old(disk) && ni == inode
      ensures r == 0 ==> ni == inode.(indirect := ni.indirect) && ni.indirect[g] != UNALLOCATED
      ensures dataBitmap[..] == AllocBits(old(dataBitmap[..]), DATA_BOUND)
      ensures r == -ENOMEM <==> AllocIndex(old(dataBitmap[..]), DATA_BOUND) == -1
      ensures r == 0 ==>
        var pblk := D_START_BLK + AllocIndex(old(dataBitmap[..]), DATA_BOUND);
        && ni == inode.(indirect := inode.indirect[g := pblk])
        && disk == WriteInode(old(disk)[pblk := PtrBlk(seq(PTRS_PER_BLOCK, _ => UNALLOCATED))], ni.ino, ni)
      ensures Consistent(old(disk), inode, old(dataBitmap[..])) ==>
        Staged(old(disk), inode, disk, ni, dataBitmap[..])
    {
      ghost var d0 := disk;
      ghost var bm0 := dataBitmap[..];
      ghost var h := Consistent(d0, inode, bm0);
      ni := inode;
      var pblk := GetAvailBlkno();
      AllocSpec(bm0, MAX_DNUM - D_START_BLK);
      if pblk == -1 {
        if h {
          GrowBitmap(d0, inode, bm0, dataBitmap[..]);
        }
        return -ENOMEM, inode;
      }
      ni := inode.(indirect := inode.indirect[g := pblk]);
      var unset := PtrBlk(seq(PTRS_PER_BLOCK, _ => UNALLOCATED));
      disk := disk[pblk := unset];
      ghost var d1 := disk;
      DataWriteKeepsInodes(d0, pblk, unset);
      if h {
        AttachPointerBlock(d0, inode, bm0, g, pblk, d1, ni, dataBitmap[..]);
        InodeWriteKeeps(d1, ni, dataBitmap[..], ni.ino, ni);
      }
      Writei(ni.ino, ni);
      WriteKeepsOthers(d1, ni.ino, ni);
      ReadAfterWrite(d1, ni.ino, ni);
      r := 0;
    }

    /** dir_add's new-block case in an indirect group: claim a data block and store its
        number at the block's place in the group's pointer block. */
    method AddGroupBlock(inode: Inode, lb: nat) returns (r: int)
      requires Valid() && NUM_DIRECT <= lb < MAX_LBLOCKS
      modifies this, dataBitmap
      ensures r == 0 || r == -ENOMEM
      ensures OnlySet(old(dataBitmap[..]), dataBitmap[..])
      ensures r == -ENOMEM ==> DataFull(dataBitmap[..]) && disk == old(disk)
      ensures dataBitmap[..] == AllocBits(old(dataBitmap[..]), DATA_BOUND)
      ensures r == -ENOMEM <==> AllocIndex(old(dataBitmap[..]), DATA_BOUND) == -1
      ensures r == 0 ==>
        var pblk := inode.indirect[GroupOf(lb)];
        var nblk := D_START_BLK + AllocIndex(old(dataBitmap[..]), DATA_BOUND);
        disk == old(disk)[pblk := PtrBlk(PtrsOf(Get(old(disk), pblk))[IndexInGroup(lb) := nblk])]
      ensures (Consistent(old(disk), inode, old(dataBitmap[..])) && BlocksFor(Count(inode)) <= lb
        && Count(inode) < MAX_ENTRIES && inode.indirect[GroupOf(lb)] != UNALLOCATED) ==>
        && Staged(old(disk), inode, disk, inode, dataBitmap[..])
        && (r == 0 ==> Ready(disk, inode, dataBitmap[..], lb, Entries(old(disk), inode)))
    {
      ghost var d0 := disk;
      ghost var bm0 := dataBitmap[..];
      ghost var h := Consistent(d0, inode, bm0) && BlocksFor(Count(inode)) <= lb
        && Count(inode) < MAX_ENTRIES && inode.indirect[GroupOf(lb)] != UNALLOCATED;
      var pblk := inode.indirect[GroupOf(lb)];
      var ptrs := PtrsOf(Get(disk, pblk));
      var nblk := GetAvailBlkno();
      AllocSpec(bm0, MAX_DNUM - D_START_BLK);
      if nblk == -1 {
        if h {
          GrowBitmap(d0, inode, bm0, dataBitmap[..]);
        }
        return -ENOMEM;
      }
      disk := disk[pblk := PtrBlk(ptrs[IndexInGroup(lb) := nblk])];
      if h {
        UnownedIsUnreferenced(d0, inode, bm0, nblk);
        GrowBitmap(d0, inode, bm0, dataBitmap[..]);
        assert Ref(d0, inode, NUM_DIRECT + GroupOf(lb)) == pblk;
        DataWriteKeepsInodes(d0, pblk, PtrBlk(ptrs[IndexInGroup(lb) := nblk]));
        PointerSlotWrite(d0, inode, dataBitmap[..], lb, nblk, disk);
      }
      r := 0;
    }

    /** dir_add's last step: write the entry into its slot of block lb and the grown size
        into the inode. */
    method PlaceDirent(inode: Inode, lb: nat, slot: nat, entry: Dirent, ghost old_entries: seq<Dirent>)
      returns (ni: Inode)
      requires lb < MAX_LBLOCKS && slot < DIRENTS_PER_BLOCK
      modifies this
      ensures SameIdentity(ni, inode) && ni.size == inode.size + DIRENT_SIZE
      ensures (Ready(old(disk), inode, old(dataBitmap[..]), lb, old_entries)
        && inode.ino < MAX_INUM && Count(inode) == lb * DIRENTS_PER_BLOCK + slot) ==>
        && Consistent(disk, ni, dataBitmap[..]) && Entries(disk, ni) == old_entries + [entry]
        && OthersKept(old(disk), disk, inode.ino)
    {
      ghost var h := Ready(disk, inode, dataBitmap[..], lb, old_entries)
        && inode.ino < MAX_INUM && Count(inode) == lb * DIRENTS_PER_BLOCK + slot;
      var finalBlk: int;
      if lb < NUM_DIRECT {
        finalBlk := inode.direct[lb];
      } else {
        finalBlk := PtrsOf(Get(disk, inode.indirect[GroupOf(lb)]))[IndexInGroup(lb)];
      }
      var ents := DirentsOf(Get(disk, finalBlk));
      ghost var d0 := disk;
      disk := disk[finalBlk := DirentBlk(ents[slot := entry])];
      ni := inode.(size := inode.size + DIRENT_SIZE, vstat := inode.vstat.(size := inode.size + DIRENT_SIZE));
      ghost var d1 := disk;
      if h {
        PlaceEntry(d0, inode, dataBitmap[..], lb, slot, entry, old_entries, d1, ni);
        DataWriteKeepsInodes(d0, finalBlk, DirentBlk(ents[slot := entry]));
        InodeWriteKeeps(d1, ni, dataBitmap[..], ni.ino, ni);
      }
      Writei(ni.ino, ni);
      WriteKeepsOthers(d1, ni.ino, ni);
      ReadAfterWrite(d1, ni.ino, ni);
    }

    /** The allocation part of dir_add: find entry number Count(dirInode)'s block and slot,
        and make sure the block exists. */
    method ClaimSlot(dirInode: Inode) returns (r: int, inode: Inode, lb: nat, slot: nat)
      requires Valid()
      modifies this, dataBitmap
      ensures r == 0 || r == -ENOMEM
      ensures OnlySet(old(dataBitmap[..]), dataBitmap[..])
      ensures r == -ENOMEM ==> Count(dirInode) >= MAX_ENTRIES || DataFull(dataBitmap[..])
      ensures r == 0 ==> lb < MAX_LBLOCKS && slot < DIRENTS_PER_BLOCK
      ensures lb == Count(dirInode) / DIRENTS_PER_BLOCK
      ensures dataBitmap[..] == AllocRun(old(dataBitmap[..]), DATA_BOUND, ClaimsFor(dirInode))
      ensures r == -ENOMEM <==>
        Count(dirInode) >= MAX_ENTRIES || RunFails(old(dataBitmap[..]), DATA_BOUND, ClaimsFor(dirInode))
      ensures ClaimsFor(dirInode) == 0 ==> disk == old(disk) && inode == dirInode
      ensures Consistent(old(disk), dirInode, old(dataBitmap[..])) ==>
        && Staged(old(disk), dirInode, disk, inode, dataBitmap[..])
        && (r == 0 ==> Ready(disk, inode, dataBitmap[..], lb, Entries(old(disk), dirInode))
                       && Count(inode) == lb * DIRENTS_PER_BLOCK + slot)
    {
      ghost var d0 := disk;
      ghost var bm0 := dataBitmap[..];
      ghost var h := Consistent(d0, dirInode, bm0);
      RunOfOne(bm0, DATA_BOUND);
      RunOfTwo(bm0, DATA_BOUND);
      inode := dirInode;
      var n := inode.size / DIRENT_SIZE;
      lb := n / DIRENTS_PER_BLOCK;
      slot := n % DIRENTS_PER_BLOCK;
      if lb < NUM_DIRECT && inode.direct[lb] == UNALLOCATED {
        slot := 0;
        r, inode := AddDirectBlock(inode, lb);
        if r != 0 {
          return;
        }
      } else if lb >= NUM_DIRECT {
        var g := (lb - NUM_DIRECT) / PTRS_PER_BLOCK;
        if g >= NUM_INDIRECT {
          // Past the last indirect pointer the code would index out of bounds; the model
          // reports a full directory instead.
          return -ENOMEM, inode, lb, slot;
        }
        if inode.indirect[g] == UNALLOCATED {
          if h {
            NewBlockSlot(dirInode, bm0, d0, lb);
          }
          r, inode := AddPointerBlock(inode, g);
          if r != 0 {
            return;
          }
        }
        if slot == 0 {
          if h {
            NewBlockSlot(dirInode, bm0, d0, lb);
          }
          r := AddGroupBlock(inode, lb);
          if r != 0 {
            return;
          }
        } else if h {
          ReadyInPlace(d0, dirInode, bm0, lb);
        }
      } else if h {
        ReadyInPlace(d0, dirInode, bm0, lb);
      }
      r := 0;
    }

    /** dir_add: refuse a name already present, otherwise write the new entry into the next
        free slot, claiming a data block (and a pointer block) when the slot starts a new
        block, and grow the directory's size by one entry. */
    method DirAdd(dirInode: Inode, fIno: u16, name: seq<char>) returns (r: int)
      requires Valid() && |name| < NAME_CAP
      modifies this, dataBitmap
      ensures r == 0 || r == -EEXIST || r == -ENOMEM
      ensures r == -EEXIST <==>
        dirInode.direct[0] != UNALLOCATED && Lookup(old(disk), dirInode.ino, name).Some?
      ensures r == -EEXIST ==> disk == old(disk) && dataBitmap[..] == old(dataBitmap[..])
      ensures r == -ENOMEM ==> Count(dirInode) >= MAX_ENTRIES || DataFull(dataBitmap[..])
      ensures OnlySet(old(dataBitmap[..]), dataBitmap[..])
      ensures r != -EEXIST ==>
        dataBitmap[..] == AllocRun(old(dataBitmap[..]), DATA_BOUND, ClaimsFor(dirInode))
      ensures r == -ENOMEM <==>
        && r != -EEXIST
        && (Count(dirInode) >= MAX_ENTRIES || RunFails(old(dataBitmap[..]), DATA_BOUND, ClaimsFor(dirInode)))
      ensures Consistent(old(disk), dirInode, old(dataBitmap[..])) ==>
        var ni := ReadInode(disk, dirInode.ino);
        && OthersKept(old(disk), disk, dirInode.ino)
        && Consistent(disk, ni, dataBitmap[..]) && SameIdentity(ni, dirInode)
        && ni.size == dirInode.size + (if r == 0 then DIRENT_SIZE else 0)
        && Entries(disk, ni) == Entries(old(disk), dirInode) + (if r == 0 then [Dirent(fIno, 1, name, |name|)] else [])
        && (r == 0 ==> Lookup(disk, dirInode.ino, name) == Some(Dirent(fIno, 1, name, |name|)))
    {
      ghost var h := Consistent(disk, dirInode, dataBitmap[..]);
      if h {
        ValidScansAll(disk, dirInode, dataBitmap[..]);
        UsedPointers(disk, dirInode, dataBitmap[..]);
      }
      if dirInode.direct[0] != UNALLOCATED {
        var found, _ := DirFind(dirInode.ino, name);
        if found == 0 {
          return -EEXIST;
        }
      }
      ghost var e0 := Entries(disk, dirInode);
      assert h ==> Find(e0, name).None?;
      var entry := Dirent(fIno, 1, name, |name|);
      var inode, lb, slot;
      r, inode, lb, slot := ClaimSlot(dirInode);
      if r != 0 {
        return;
      }
      inode := PlaceDirent(inode, lb, slot, entry, e0);
      if h {
        AddedIsFound(disk, dirInode.ino, dataBitmap[..], e0, entry, name);
      }
      r := 0;
    }

    /** unset_bitmap on the data bitmap for block b; an index outside the bitmap is ignored. */
    method UnsetDataBit(b: int)
      requires Valid()
      modifies dataBitmap
      ensures dataBitmap[..] == if 0 <= b - D_START_BLK < dataBitmap.Length
        then old(dataBitmap[..])[b - D_START_BLK := false] else old(dataBitmap[..])
    {
      var i := b - D_START_BLK;
      if 0 <= i < dataBitmap.Length {
        dataBitmap[i] := false;
      }
    }

    /** unset_bitmap on the inode bitmap; an index outside the bitmap is ignored. */
    method UnsetInodeBit(ino: int)
      requires Valid()
      modifies inodeBitmap
      ensures inodeBitmap[..] == if 0 <= ino < inodeBitmap.Length
        then old(inodeBitmap[..])[ino := false] else old(inodeBitmap[..])
    {
      if 0 <= ino < inodeBitmap.Length {
        inodeBitmap[ino] := false;
      }
    }

    /** Free logical block lb of a directory past its live entries: clear the block's bit and
        the pointer to it. An indirect block's pointer is cleared in `ptrs`, the contents of
        its group's pointer block, which is written back; when lb is the first block of its
        group the pointer block is freed too. */
    method ReleaseBlock(inode: Inode, lb: nat, ptrs: seq<int>) returns (ni: Inode)
      requires Valid() && lb < MAX_LBLOCKS && (lb >= NUM_DIRECT ==> |ptrs| == PTRS_PER_BLOCK)
      modifies this, dataBitmap
      ensures OnlyCleared(old(dataBitmap[..]), dataBitmap[..])
      ensures ni == ReleasedInode(inode, lb)
      ensures dataBitmap[..] == ReleasedBits(old(dataBitmap[..]), inode, lb, ptrs)
      ensures disk == ReleasedDisk(old(disk), inode, lb, ptrs)
      ensures ReleaseReady(old(disk), inode, old(dataBitmap[..]), lb, ptrs) ==>
        && DirValid(disk, ni, dataBitmap[..]) && Entries(disk, ni) == Entries(old(disk), inode)
        && forall o: nat :: o < MAX_INUM ==> ReadInode(disk, o) == ReadInode(old(disk), o)
    {
      ghost var d0 := disk;
      ghost var bm0 := dataBitmap[..];
      ghost var h := ReleaseReady(d0, inode, bm0, lb, ptrs);
      if lb < NUM_DIRECT {
        UnsetDataBit(inode.direct[lb]);
        ni := inode.(direct := inode.direct[lb := UNALLOCATED]);
        if h {
          ReleaseDirect(d0, inode, bm0, lb, ni);
        }
      } else {
        ni := ReleaseIndirectBlock(inode, lb, ptrs);
      }
    }

    /** ReleaseBlock for an indirect block lb: clear its pointer in the pointer block and
        write that back, and free the pointer block too when lb is the first of its group. */
    method ReleaseIndirectBlock(inode: Inode, lb: nat, ptrs: seq<int>) returns (ni: Inode)
      requires Valid() && NUM_DIRECT <= lb < MAX_LBLOCKS && |ptrs| == PTRS_PER_BLOCK
      modifies this, dataBitmap
      ensures OnlyCleared(old(dataBitmap[..]), dataBitmap[..])
      ensures ni == ReleasedInode(inode, lb)
      ensures dataBitmap[..] == ReleasedBits(old(dataBitmap[..]), inode, lb, ptrs)
      ensures disk == ReleasedDisk(old(disk), inode, lb, ptrs)
      ensures ReleaseReady(old(disk), inode, old(dataBitmap[..]), lb, ptrs) ==>
        && DirValid(disk, ni, dataBitmap[..]) && Entries(disk, ni) == Entries(old(disk), inode)
        && forall o: nat :: o < MAX_INUM ==> ReadInode(disk, o) == ReadInode(old(disk), o)
    {
      ghost var d0 := disk;
      ghost var bm0 := dataBitmap[..];
      ghost var h := ReleaseReady(d0, inode, bm0, lb, ptrs);
      var g := (lb - NUM_DIRECT) / PTRS_PER_BLOCK;
      var k := (lb - NUM_DIRECT) % PTRS_PER_BLOCK;
      var pblk := inode.indirect[g];
      UnsetDataBit(ptrs[k]);
      disk := disk[pblk := PtrBlk(ptrs[k := UNALLOCATED])];
      ghost var bm1 := dataBitmap[..];
      ni := inode;
      if h {
        assert Ref(d0, inode, NUM_DIRECT + g) == pblk;
        ReleaseIndirect(d0, inode, bm0, lb, disk);
        DataWriteKeepsInodes(d0, pblk, PtrBlk(ptrs[k := UNALLOCATED]));
      }
      if k == 0 {
        UnsetDataBit(pblk);
        ni := inode.(indirect := inode.indirect[g := UNALLOCATED]);
        if h {
          ReleaseGroup(disk, inode, bm1, g, ni);
        }
      }
    }

    /** The last steps of dir_remove: free block lbL when `release` says so, then writei the
        directory's inode. */
    method Finish(inode: Inode, lbL: nat, ptrs: seq<int>, release: bool,
                  ghost d0: Disk, ghost dir: Inode, ghost j: nat)
      requires Valid() && lbL < MAX_LBLOCKS && (lbL >= NUM_DIRECT ==> |ptrs| == PTRS_PER_BLOCK)
      modifies this, dataBitmap
      ensures OnlyCleared(old(dataBitmap[..]), dataBitmap[..])
      ensures dataBitmap[..] == FinishedBits(old(dataBitmap[..]), inode, lbL, ptrs, release)
      ensures disk == FinishedDisk(old(disk), inode, lbL, ptrs, release)
      ensures (Shrunk(d0, dir, old(disk), inode, old(dataBitmap[..]), j)
        && (release ==> ReleaseReady(old(disk), inode, old(dataBitmap[..]), lbL, ptrs))) ==>
        Removed(d0, dir, disk, dataBitmap[..], j)
    {
      ghost var d1 := disk;
      ghost var bm1 := dataBitmap[..];
      ghost var h := Shrunk(d0, dir, d1, inode, bm1, j)
        && (release ==> ReleaseReady(d1, inode, bm1, lbL, ptrs));
      var ni := inode;
      if release {
        ni := ReleaseBlock(inode, lbL, ptrs);
        if h {
          ReleasedShrunk(d0, dir, ni, d1, bm1, inode, disk, dataBitmap[..], j, lbL);
        }
      }
      ghost var d := disk;
      Writei(ni.ino, ni);
      if h {
        Committed(d0, dir, d, ni, dataBitmap[..], j);
      }
    }

    /** dir_remove's early exit: the matching entry is the only one the scan counts in its
        block, so it is the last entry and alone in that block. Zero its slot, free the
        block and write the inode one entry smaller. */
    method RemoveLoneLast(dirInode: Inode, lb: nat, blk: int)
      requires Valid() && lb < MAX_LBLOCKS && dirInode.size >= DIRENT_SIZE
      modifies this, dataBitmap
      ensures OnlyCleared(old(dataBitmap[..]), dataBitmap[..])
      ensures var shrunk := dirInode.(size := dirInode.size - DIRENT_SIZE);
        var ptrs := GroupPtrs(old(disk), shrunk, lb);
        var zeroed := old(disk)[blk := DirentBlk(DirentsOf(Get(old(disk), blk))[0 := ZERO_DIRENT])];
        && dataBitmap[..] == ReleasedBits(old(dataBitmap[..]), shrunk, lb, ptrs)
        && disk == FinishedDisk(zeroed, shrunk, lb, ptrs, true)
      ensures (Consistent(old(disk), dirInode, old(dataBitmap[..]))
        && Count(dirInode) == lb * DIRENTS_PER_BLOCK + 1 && blk == PtrAt(old(disk), dirInode, lb)) ==>
        && Removed(old(disk), dirInode, disk, dataBitmap[..], Count(dirInode) - 1)
        && BlockReleased(old(disk), dirInode, old(dataBitmap[..]), disk, dataBitmap[..], Count(dirInode) - 1)
    {
      ghost var d0 := disk;
      ghost var bm0 := dataBitmap[..];
      ghost var h := Consistent(d0, dirInode, bm0)
        && Count(dirInode) == lb * DIRENTS_PER_BLOCK + 1 && blk == PtrAt(d0, dirInode, lb);
      var inode := dirInode.(size := dirInode.size - DIRENT_SIZE);
      var ptrs := GroupPtrs(disk, inode, lb);
      var ents := DirentsOf(Get(disk, blk));
      disk := disk[blk := DirentBlk(ents[0 := ZERO_DIRENT])];
      if h {
        EntryPosition(lb, 0);
        LoneCleared(d0, dirInode, bm0, inode, ptrs, lb, blk);
        assert Count(inode) == lb * DIRENTS_PER_BLOCK;
      }
      ghost var d1 := disk;
      Finish(inode, lb, ptrs, true, d0, dirInode, Count(dirInode) - 1);
      ReadAfterWrite(ReleasedDisk(d1, inode, lb, ptrs), inode.ino, ReleasedInode(inode, lb));
      if h {
        FinishReleases(d0, dirInode, bm0, d1, disk, dataBitmap[..], Count(dirInode) - 1, inode, lb);
      }
    }

    /** dir_remove's compaction, up to the release: find the block of the last entry (entry
        Count(inode), the size being already decremented), copy that entry into slot remSlot
        of buffer buf and write the buffer to remBlk, then zero the entry's old slot and write
        its block when it is another one. ptrs is the pointer block the last block's number
        was read from, and tail the last block's entries with the moved one zeroed. -1, with
        nothing written, when a pointer on the way is unset. */
    method MoveLast(inode: Inode, remBlk: int, remSlot: nat, buf: seq<Dirent>)
      returns (r: int, lbL: nat, ptrs: seq<int>, tail: seq<Dirent>)
      requires |buf| == DIRENTS_PER_BLOCK && remSlot < DIRENTS_PER_BLOCK
      modifies this
      ensures r == 0 || r == -1
      ensures lbL == Count(inode) / DIRENTS_PER_BLOCK
      ensures r == -1 ==>
        && disk == old(disk)
        && (lbL >= MAX_LBLOCKS || PtrAt(old(disk), inode, lbL) == UNALLOCATED
            || (lbL >= NUM_DIRECT && inode.indirect[GroupOf(lbL)] == UNALLOCATED))
      ensures r == 0 ==>
        && lbL < MAX_LBLOCKS && disk == MovedLast(old(disk), inode, remBlk, remSlot, buf)
        && ptrs == GroupPtrs(old(disk), inode, lbL)
        && tail == DirentsOf(Get(old(disk), PtrAt(old(disk), inode, lbL)))[Count(inode) % DIRENTS_PER_BLOCK := ZERO_DIRENT]
    {
      var n := inode.size / DIRENT_SIZE;
      lbL := n / DIRENTS_PER_BLOCK;
      var slotL := n % DIRENTS_PER_BLOCK;
      ptrs, tail := [], [];
      var finalBlk: int;
      if lbL < NUM_DIRECT {
        if inode.direct[lbL] == UNALLOCATED {
          return -1, lbL, ptrs, tail;
        }
        finalBlk := inode.direct[lbL];
      } else {
        var g := (lbL - NUM_DIRECT) / PTRS_PER_BLOCK;
        var k := (lbL - NUM_DIRECT) % PTRS_PER_BLOCK;
        if g >= NUM_INDIRECT {
          // Past the last indirect pointer the code would index out of bounds; the model
          // fails instead.
          return -1, lbL, ptrs, tail;
        }
        if inode.indirect[g] == UNALLOCATED {
          return -1, lbL, ptrs, tail;
        }
        ptrs := PtrsOf(Get(disk, inode.indirect[g]));
        finalBlk := ptrs[k];
        if finalBlk == UNALLOCATED {
          return -1, lbL, ptrs, tail;
        }
      }
      var last := DirentsOf(Get(disk, finalBlk));
      var hole := buf[remSlot := last[slotL]];
      tail := last[slotL := ZERO_DIRENT];
      disk := disk[remBlk := DirentBlk(hole)];
      if remBlk != finalBlk {
        disk := disk[finalBlk := DirentBlk(tail)];
      }
      r := 0;
    }

    /** The end of dir_remove once entry j is found and is not alone in the last block: the
        compaction, the release of the last block when the compaction empties it and it is
        the block right after the entry's (numDirents, the entries after the entry's block,
        is then 1), and the writei of the inode one entry smaller. */
    method CloseGap(inode: Inode, remBlk: int, remSlot: nat, buf: seq<Dirent>, numDirents: int,
                    ghost dir: Inode, ghost j: nat)
      returns (r: int)
      requires Valid() && |buf| == DIRENTS_PER_BLOCK && remSlot < DIRENTS_PER_BLOCK
      modifies this, dataBitmap
      ensures r == 0 || r == -1
      ensures r == -1 ==> disk == old(disk) && dataBitmap[..] == old(dataBitmap[..])
      ensures OnlyCleared(old(dataBitmap[..]), dataBitmap[..])
      ensures (Consistent(old(disk), dir, old(dataBitmap[..])) && j < Count(dir)
        && inode == dir.(size := dir.size - DIRENT_SIZE)
        && remBlk == PtrAt(old(disk), dir, j / DIRENTS_PER_BLOCK) && remSlot == j % DIRENTS_PER_BLOCK
        && buf == DirentsOf(Get(old(disk), remBlk))) ==>
        r == 0 && Removed(old(disk), dir, disk, dataBitmap[..], j)
      ensures r == 0 ==>
        var lbL := Count(inode) / DIRENTS_PER_BLOCK;
        && lbL < MAX_LBLOCKS
        && var ptrs := GroupPtrs(old(disk), inode, lbL);
           var release := Count(inode) % DIRENTS_PER_BLOCK == 0 && numDirents == 1;
           && dataBitmap[..] == FinishedBits(old(dataBitmap[..]), inode, lbL, ptrs, release)
           && disk == FinishedDisk(MovedLast(old(disk), inode, remBlk, remSlot, buf), inode, lbL, ptrs, release)
    {
      ghost var d0 := disk;
      ghost var bm0 := dataBitmap[..];
      ghost var h := Consistent(d0, dir, bm0) && j < Count(dir)
        && inode == dir.(size := dir.size - DIRENT_SIZE)
        && remBlk == PtrAt(d0, dir, j / DIRENTS_PER_BLOCK) && remSlot == j % DIRENTS_PER_BLOCK
        && buf == DirentsOf(Get(d0, remBlk));
      if h {
        LastReachable(d0, dir, bm0, inode);
      }
      var lbL, ptrs, tail;
      r, lbL, ptrs, tail := MoveLast(inode, remBlk, remSlot, buf);
      if r != 0 {
        return;
      }
      if h {
        MovedLastIsGapWrites(d0, dir, j, inode);
        GapClosed(d0, dir, bm0, j, inode);
      }
      Finish(inode, lbL, ptrs, Count(inode) % DIRENTS_PER_BLOCK == 0 && numDirents == 1, d0, dir, j);
      r := 0;
    }

    /** dir_remove, with the compaction it evidently intends: find the entry as dir_find
        does; when the scan counts it alone in its block, zero it and free the block;
        otherwise move the last entry into its place. -1 when the name is not found. */
    method DirRemove(dirInode: Inode, name: seq<char>) returns (r: int)
      requires Valid()
      modifies this, dataBitmap
      ensures r == 0 || r == -1
      ensures OnlyCleared(old(dataBitmap[..]), dataBitmap[..])
      ensures r == -1 ==> disk == old(disk) && dataBitmap[..] == old(dataBitmap[..])
      ensures Find(Scanned(old(disk), dirInode), name).None? ==> r == -1
      ensures Consistent(old(disk), dirInode, old(dataBitmap[..])) ==>
        var found := Find(Entries(old(disk), dirInode), name);
        && (r == 0 <==> found.Some?)
        && (found.Some? ==> Removed(old(disk), dirInode, disk, dataBitmap[..], found.value))
      ensures Consistent(old(disk), dirInode, old(dataBitmap[..])) && Find(Entries(old(disk), dirInode), name).Some? ==>
        BlockReleased(old(disk), dirInode, old(dataBitmap[..]), disk, dataBitmap[..],
                      Find(Entries(old(disk), dirInode), name).value)
    {
      ghost var d0 := disk;
      ghost var bm0 := dataBitmap[..];
      ghost var h := Consistent(disk, dirInode, dataBitmap[..]);
      if h {
        ValidScansAll(disk, dirInode, dataBitmap[..]);
      }
      var lb, i, cnt, blk := LocateEntry(dirInode, name);
      if lb == -1 {
        return -1;
      }
      EntryPosition(lb, i);
      var inode := dirInode.(size := dirInode.size - DIRENT_SIZE);
      if i == 0 && cnt == 1 {
        RemoveLoneLast(dirInode, lb, blk);
        return 0;
      }
      var numDirents := dirInode.size / DIRENT_SIZE - lb * DIRENTS_PER_BLOCK - cnt;
      var buf := DirentsOf(Get(disk, blk));
      r := CloseGap(inode, blk, i, buf, numDirents, dirInode, lb * DIRENTS_PER_BLOCK + i);
      if h {
        GapReleases(d0, dirInode, bm0, disk, dataBitmap[..], inode, blk, i, buf, numDirents, lb, i, cnt);
      }
    }
 
    // dir_remove as the code is written.

    /** The release at the end of dir_remove as written: a direct block is freed as
        intended; for an indirect block the code clears the block's bit, then writes its
        buffer, which holds the last block's entries (tail), over the group's pointer block,
        and frees that pointer block only when the block is the first of its group. */
    method ReleaseAsWritten(inode: Inode, lb: nat, ptrs: seq<int>, tail: seq<Dirent>) returns (ni: Inode)
      requires Valid() && lb < MAX_LBLOCKS && (lb >= NUM_DIRECT ==> |ptrs| == PTRS_PER_BLOCK)
      modifies this, dataBitmap
      ensures OnlyCleared(old(dataBitmap[..]), dataBitmap[..])
      ensures lb < NUM_DIRECT ==> disk == old(disk) && ni == inode.(direct := inode.direct[lb := UNALLOCATED])
      ensures lb >= NUM_DIRECT ==>
        && disk == old(disk)[inode.indirect[GroupOf(lb)] := DirentBlk(tail)]
        && ni == if IndexInGroup(lb) == 0 then inode.(indirect := inode.indirect[GroupOf(lb) := UNALLOCATED])
                 else inode
      ensures (ReleaseReady(old(disk), inode, old(dataBitmap[..]), lb, ptrs)
        && (lb < NUM_DIRECT || IndexInGroup(lb) == 0)) ==>
        && DirValid(disk, ni, dataBitmap[..]) && Entries(disk, ni) == Entries(old(disk), inode)
        && forall o: nat :: o < MAX_INUM ==> ReadInode(disk, o) == ReadInode(old(disk), o)
    {
      ghost var d0 := disk;
      ghost var bm0 := dataBitmap[..];
      ghost var h := ReleaseReady(d0, inode, bm0, lb, ptrs);
      if lb < NUM_DIRECT {
        UnsetDataBit(inode.direct[lb]);
        ni := inode.(direct := inode.direct[lb := UNALLOCATED]);
        if h {
          ReleaseDirect(d0, inode, bm0, lb, ni);
        }
      } else {
        var g := (lb - NUM_DIRECT) / PTRS_PER_BLOCK;
        var k := (lb - NUM_DIRECT) % PTRS_PER_BLOCK;
        var pblk := inode.indirect[g];
        UnsetDataBit(ptrs[k]);
        disk := disk[pblk := DirentBlk(tail)];
        ghost var bm1 := dataBitmap[..];
        ni := inode;
        if h && k == 0 {
          ghost var dc := d0[pblk := PtrBlk(ptrs[k := UNALLOCATED])];
          assert Ref(d0, inode, NUM_DIRECT + g) == pblk;
          ReleaseIndirect(d0, inode, bm0, lb, dc);
          DeadGroupWrite(dc, inode, bm1, g, DirentBlk(tail));
          assert dc[pblk := DirentBlk(tail)] == disk;
          DataWriteKeepsInodes(d0, pblk, DirentBlk(tail));
        }
        if k == 0 {
          UnsetDataBit(pblk);
          ni := inode.(indirect := inode.indirect[g := UNALLOCATED]);
          if h {
            ReleaseGroup(disk, inode, bm1, g, ni);
          }
        }
      }
    }
 
    /** The last steps of dir_remove as written: free block lbL when `release` says so, the
        indirect way overwriting its pointer block with tail, then writei the inode. */
    method FinishAsWritten(inode: Inode, lbL: nat, ptrs: seq<int>, tail: seq<Dirent>, release: bool,
                           ghost d0: Disk, ghost dir: Inode, ghost j: nat)
      requires Valid() && lbL < MAX_LBLOCKS && (lbL >= NUM_DIRECT ==> |ptrs| == PTRS_PER_BLOCK)
      modifies this, dataBitmap
      ensures OnlyCleared(old(dataBitmap[..]), dataBitmap[..])
      ensures !release ==>
        disk == WriteInode(old(disk), inode.ino, inode) && dataBitmap[..] == old(dataBitmap[..])
      ensures (Shrunk(d0, dir, old(disk), inode, old(dataBitmap[..]), j)
        && (release ==> ReleaseReady(old(disk), inode, old(dataBitmap[..]), lbL, ptrs)
                        && (lbL < NUM_DIRECT || IndexInGroup(lbL) == 0))) ==>
        Removed(d0, dir, disk, dataBitmap[..], j)
      ensures (release && lbL >= NUM_DIRECT && IndexInGroup(lbL) != 0
        && Shrunk(d0, dir, old(disk), inode, old(dataBitmap[..]), j)
        && ReleaseReady(old(disk), inode, old(dataBitmap[..]), lbL, ptrs)) ==>
        ReadInode(disk, dir.ino) == inode && !DirValid(disk, inode, dataBitmap[..])
    {
      ghost var h := Shrunk(d0, dir, disk, inode, dataBitmap[..], j);
      ghost var dr := disk;
      ghost var bm0 := dataBitmap[..];
      var ni := inode;
      if release {
        ni := ReleaseAsWritten(inode, lbL, ptrs, tail);
      }
      ghost var d := disk;
      Writei(ni.ino, ni);
      if h && Shrunk(d0, dir, d, ni, dataBitmap[..], j) {
        Committed(d0, dir, d, ni, dataBitmap[..], j);
      }
      if release && lbL >= NUM_DIRECT && IndexInGroup(lbL) != 0 && h && ReleaseReady(dr, inode, bm0, lbL, ptrs) {
        ReleaseClobbers(dr, inode, bm0, lbL, tail, dataBitmap[..]);
      }
    }

    /** The end of dir_remove as written once entry j is found and is not alone in the last
        block: the compaction from buffer buf, the release of the last block when the new
        count is a whole number of blocks and numDirents is 1, and the writei. Three shapes:
        buf is entry j's own block and the release, if any, does not overwrite a pointer
        block in use: entry j is removed; the release does overwrite one: the directory is
        left inconsistent; buf is a later block lbs and nothing is released: the writes are
        StaleWrites. */
    method CloseGapAsWritten(inode: Inode, remBlk: int, remSlot: nat, buf: seq<Dirent>, numDirents: int,
                             ghost dir: Inode, ghost j: nat, ghost lbs: nat)
      returns (r: int)
      requires Valid() && |buf| == DIRENTS_PER_BLOCK && remSlot < DIRENTS_PER_BLOCK
      modifies this, dataBitmap
      ensures r == 0 || r == -1
      ensures r == -1 ==> disk == old(disk) && dataBitmap[..] == old(dataBitmap[..])
      ensures OnlyCleared(old(dataBitmap[..]), dataBitmap[..])
      ensures Located(old(disk), old(dataBitmap[..]), dir, inode, remBlk, remSlot, j) ==> r == 0
      ensures (Located(old(disk), old(dataBitmap[..]), dir, inode, remBlk, remSlot, j)
        && buf == DirentsOf(Get(old(disk), remBlk)) && !ReleasesIntoPointerBlock(Count(inode), numDirents)) ==>
        r == 0 && Removed(old(disk), dir, disk, dataBitmap[..], j)
      ensures (Located(old(disk), old(dataBitmap[..]), dir, inode, remBlk, remSlot, j)
        && buf == DirentsOf(Get(old(disk), remBlk)) && ReleasesIntoPointerBlock(Count(inode), numDirents)) ==>
        r == 0 && ReadInode(disk, dir.ino) == inode && !DirValid(disk, inode, dataBitmap[..])
      ensures (Located(old(disk), old(dataBitmap[..]), dir, inode, remBlk, remSlot, j)
        && Count(inode) % DIRENTS_PER_BLOCK != 0
        && NUM_DIRECT <= j / DIRENTS_PER_BLOCK < lbs && lbs * DIRENTS_PER_BLOCK + 1 < Count(dir)
        && buf == DirentsOf(Get(old(disk), PtrAt(old(disk), dir, lbs)))) ==>
        r == 0 && disk == StaleWrites(old(disk), dir, j, lbs) && dataBitmap[..] == old(dataBitmap[..])
    {
      ghost var d0 := disk;
      ghost var bm0 := dataBitmap[..];
      ghost var h := Located(d0, bm0, dir, inode, remBlk, remSlot, j);
      ghost var own := h && buf == DirentsOf(Get(d0, remBlk));
      if h {
        LastReachable(d0, dir, bm0, inode);
      }
      var lbL, ptrs, tail;
      r, lbL, ptrs, tail := MoveLast(inode, remBlk, remSlot, buf);
      if r != 0 {
        return;
      }
      if own {
        MovedLastIsGapWrites(d0, dir, j, inode);
        GapClosed(d0, dir, bm0, j, inode);
      }
      FinishAsWritten(inode, lbL, ptrs, tail, Count(inode) % DIRENTS_PER_BLOCK == 0 && numDirents == 1,
        d0, dir, j);
      r := 0;
    }
 


    /** dir_remove as written once the scan has found entry j = lb * 19 + i, counted in a
        block of cnt entries and not alone there: the size is decremented, then the
        compaction and release as written; an indirect block goes on as
        CompactIndirectAsWritten. Which shape the removal takes depends only on the count
        and on j. */
    method CompactAsWritten(dirInode: Inode, name: seq<char>, lb: nat, i: nat, cnt: nat, blk: int)
      returns (r: int)
      requires Valid() && lb < MAX_LBLOCKS && i < cnt && lb * DIRENTS_PER_BLOCK + i < Count(dirInode)
      requires cnt == Min(Count(dirInode) - lb * DIRENTS_PER_BLOCK, DIRENTS_PER_BLOCK) && !(i == 0 && cnt == 1)
      modifies this, dataBitmap
      ensures r == 0 || r == -1
      ensures r == -1 ==> disk == old(disk) && dataBitmap[..] == old(dataBitmap[..])
      ensures OnlyCleared(old(dataBitmap[..]), dataBitmap[..])
      ensures (Consistent(old(disk), dirInode, old(dataBitmap[..])) && blk == PtrAt(old(disk), dirInode, lb)
        && (lb < NUM_DIRECT || NoMatchAfter(old(disk), dirInode, lb, Count(dirInode), name))) ==> r == 0
      ensures (Consistent(old(disk), dirInode, old(dataBitmap[..])) && blk == PtrAt(old(disk), dirInode, lb)
        && RemovesSoundly(Count(dirInode), lb * DIRENTS_PER_BLOCK + i)) ==>
        r == 0 && Removed(old(disk), dirInode, disk, dataBitmap[..], lb * DIRENTS_PER_BLOCK + i)
      ensures (Consistent(old(disk), dirInode, old(dataBitmap[..])) && blk == PtrAt(old(disk), dirInode, lb)
        && ClobbersPointerBlock(Count(dirInode), lb * DIRENTS_PER_BLOCK + i)) ==>
        var ni := ReadInode(disk, dirInode.ino);
        r == 0 && ni == dirInode.(size := dirInode.size - DIRENT_SIZE) && !DirValid(disk, ni, dataBitmap[..])
      ensures (Consistent(old(disk), dirInode, old(dataBitmap[..])) && blk == PtrAt(old(disk), dirInode, lb)
        && LeavesStaleEntries(Count(dirInode), lb * DIRENTS_PER_BLOCK + i)
        && NoMatchAfter(old(disk), dirInode, lb, Count(dirInode), name)) ==>
        var ni := ReadInode(disk, dirInode.ino);
        && r == 0 && ni == dirInode.(size := dirInode.size - DIRENT_SIZE) && dataBitmap[..] == old(dataBitmap[..])
        && (Distinct(Entries(old(disk), dirInode)) ==>
              Entries(disk, ni) != SwapRemove(Entries(old(disk), dirInode), lb * DIRENTS_PER_BLOCK + i))
    {
      ghost var d0 := disk;
      ghost var bm0 := dataBitmap[..];
      ghost var n := Count(dirInode);
      ghost var j := lb * DIRENTS_PER_BLOCK + i;
      ghost var h := Consistent(d0, dirInode, bm0) && blk == PtrAt(d0, dirInode, lb);
      var inode := dirInode.(size := dirInode.size - DIRENT_SIZE);
      var numDirents := dirInode.size / DIRENT_SIZE - lb * DIRENTS_PER_BLOCK - cnt;
      ShapeCounts(n, lb, i, cnt, numDirents);
      CountLess(dirInode, inode);
      if lb < NUM_DIRECT {
        var buf := DirentsOf(Get(disk, blk));
        assert h ==> Located(d0, bm0, dirInode, inode, blk, i, j);
        r := CloseGapAsWritten(inode, blk, i, buf, numDirents, dirInode, j, lb);
      } else {
        r := CompactIndirectAsWritten(dirInode, name, lb, i, cnt, blk);
      }
    }

    /** The same for an indirect block: the inner loop reads on past the match
        (ContinueGroup), a later lone match takes the early exit, and then the compaction
        and release as written start from the last block read. */
    method CompactIndirectAsWritten(dirInode: Inode, name: seq<char>, lb: nat, i: nat, cnt: nat, blk: int)
      returns (r: int)
      requires Valid() && lb < MAX_LBLOCKS && i < cnt && lb * DIRENTS_PER_BLOCK + i < Count(dirInode)
      requires cnt == Min(Count(dirInode) - lb * DIRENTS_PER_BLOCK, DIRENTS_PER_BLOCK) && !(i == 0 && cnt == 1)
      requires lb >= NUM_DIRECT
      modifies this, dataBitmap
      ensures r == 0 || r == -1
      ensures r == -1 ==> disk == old(disk) && dataBitmap[..] == old(dataBitmap[..])
      ensures OnlyCleared(old(dataBitmap[..]), dataBitmap[..])
      ensures (Consistent(old(disk), dirInode, old(dataBitmap[..])) && blk == PtrAt(old(disk), dirInode, lb)
        && NoMatchAfter(old(disk), dirInode, lb, Count(dirInode), name)) ==> r == 0
      ensures (Consistent(old(disk), dirInode, old(dataBitmap[..])) && blk == PtrAt(old(disk), dirInode, lb)
        && RemovesSoundly(Count(dirInode), lb * DIRENTS_PER_BLOCK + i)) ==>
        r == 0 && Removed(old(disk), dirInode, disk, dataBitmap[..], lb * DIRENTS_PER_BLOCK + i)
      ensures (Consistent(old(disk), dirInode, old(dataBitmap[..])) && blk == PtrAt(old(disk), dirInode, lb)
        && ClobbersPointerBlock(Count(dirInode), lb * DIRENTS_PER_BLOCK + i)) ==>
        var ni := ReadInode(disk, dirInode.ino);
        r == 0 && ni == dirInode.(size := dirInode.size - DIRENT_SIZE) && !DirValid(disk, ni, dataBitmap[..])
      ensures (Consistent(old(disk), dirInode, old(dataBitmap[..])) && blk == PtrAt(old(disk), dirInode, lb)
        && LeavesStaleEntries(Count(dirInode), lb * DIRENTS_PER_BLOCK + i)
        && NoMatchAfter(old(disk), dirInode, lb, Count(dirInode), name)) ==>
        var ni := ReadInode(disk, dirInode.ino);
        && r == 0 && ni == dirInode.(size := dirInode.size - DIRENT_SIZE) && dataBitmap[..] == old(dataBitmap[..])
        && (Distinct(Entries(old(disk), dirInode)) ==>
              Entries(disk, ni) != SwapRemove(Entries(old(disk), dirInode), lb * DIRENTS_PER_BLOCK + i))
    {
      ghost var d0 := disk;
      ghost var bm0 := dataBitmap[..];
      ghost var n := Count(dirInode);
      ghost var j := lb * DIRENTS_PER_BLOCK + i;
      ghost var h := Consistent(d0, dirInode, bm0) && blk == PtrAt(d0, dirInode, lb);
      var inode := dirInode.(size := dirInode.size - DIRENT_SIZE);
      var numDirents := dirInode.size / DIRENT_SIZE - lb * DIRENTS_PER_BLOCK - cnt;
      var sizeRead := (dirInode.size / DIRENT_SIZE - numDirents) * DIRENT_SIZE;
      ShapeCounts(n, lb, i, cnt, numDirents);
      ScanOnCounts(dirInode.size, n, lb, i, cnt, numDirents, sizeRead);
      CountLess(dirInode, inode);
      var buf := DirentsOf(Get(disk, blk));
      if h {
        FoundLocated(d0, bm0, dirInode, inode, blk, lb, i);
      }
      ghost var located := h && Located(d0, bm0, dirInode, inode, blk, i, j);
      ghost var sound := h && RemovesSoundly(n, j);
      ghost var clobber := h && ClobbersPointerBlock(n, j);
      ShrunkNoMatchAfter(d0, dirInode, inode, lb, n, name);
      ghost var unique := NoMatchAfter(d0, inode, lb, n, name);
      ghost var stale := located && LeavesStaleEntries(n, j) && unique;
      assert sound || clobber ==> sizeRead >= inode.size;
      assert stale ==> sizeRead < inode.size && inode.size == (n - 1) * DIRENT_SIZE;
      r := ScanOnAsWritten(inode, name, lb, sizeRead, numDirents, blk, i, buf, dirInode, n, j, unique, located,
        sound, clobber, stale);
    }

    /** The rest of CompactIndirectAsWritten from the block of the match on: the inner loop
        reads on (ContinueGroup), a later lone match takes the early exit, and otherwise the
        compaction and release as written from the last block read. The flags name the
        shapes of the removal, as CloseIndirectAsWritten takes them. */
    method ScanOnAsWritten(inode: Inode, name: seq<char>, lb: nat, sizeRead: nat, numDirents: int, blk: int,
                           i: nat, buf: seq<Dirent>, ghost dir: Inode, ghost n: nat, ghost j: nat,
                           ghost unique: bool, ghost located: bool, ghost sound: bool, ghost clobber: bool,
                           ghost stale: bool)
      returns (r: int)
      requires Valid() && NUM_DIRECT <= lb < MAX_LBLOCKS && |buf| == DIRENTS_PER_BLOCK && i < DIRENTS_PER_BLOCK
      requires (n - 1) * DIRENT_SIZE <= inode.size < n * DIRENT_SIZE
      requires 0 <= numDirents && sizeRead == (n - numDirents) * DIRENT_SIZE
      requires numDirents == 0 || n - numDirents == (lb + 1) * DIRENTS_PER_BLOCK
      requires unique ==> NoMatchAfter(disk, inode, lb, n, name)
      requires located ==>
        && Located(disk, dataBitmap[..], dir, inode, blk, i, j) && j / DIRENTS_PER_BLOCK == lb && n == Count(dir)
      requires sound || clobber ==> located && sizeRead >= inode.size && buf == DirentsOf(Get(disk, blk))
      requires sound ==> !ReleasesIntoPointerBlock(Count(inode), numDirents)
      requires clobber ==> ReleasesIntoPointerBlock(Count(inode), numDirents)
      requires stale ==>
        && located && unique && sizeRead < inode.size && inode.size == (n - 1) * DIRENT_SIZE
        && IndexInGroup(lb) < PTRS_PER_BLOCK - 1 && Count(inode) % DIRENTS_PER_BLOCK != 0
      modifies this, dataBitmap
      ensures r == 0 || r == -1
      ensures r == -1 ==> disk == old(disk) && dataBitmap[..] == old(dataBitmap[..])
      ensures OnlyCleared(old(dataBitmap[..]), dataBitmap[..])
      ensures located && unique ==> r == 0
      ensures sound ==> r == 0 && Removed(old(disk), dir, disk, dataBitmap[..], j)
      ensures clobber ==> r == 0 && ReadInode(disk, dir.ino) == inode && !DirValid(disk, inode, dataBitmap[..])
      ensures stale ==>
        && r == 0 && ReadInode(disk, dir.ino) == inode && dataBitmap[..] == old(dataBitmap[..])
        && (Distinct(Entries(old(disk), dir)) ==> Entries(disk, inode) != SwapRemove(Entries(old(disk), dir), j))
    {
      ghost var d0 := disk;
      var lone, ni, remBlk, remSlot, lbm, nb, b;
      ghost var moved;
      lone, ni, remBlk, remSlot, b, nb, lbm, moved :=
        ContinueGroup(disk, inode, lb, name, sizeRead, numDirents, blk, i, buf, n, unique);
      assert sound || clobber ==> lbm == lb && !moved;
      if lone {
        assert !sound && !clobber && !stale && !unique;
        RemoveLoneLast(ni, lbm, remBlk);
        return 0;
      }
      assert unique ==> ni == inode && remBlk == blk && remSlot == i;
      assert sound || clobber ==> b == buf && nb == numDirents;
      if stale {
        LastReadBelow(lbm, n);
        assert lbm > lb;
        assert b == DirentsOf(Get(d0, PtrAt(d0, dir, lbm)));
      }
      r := CloseIndirectAsWritten(ni, remBlk, remSlot, b, nb, dir, j, lbm, located && unique, sound,
        clobber, stale);
    }

    /** The end of CompactIndirectAsWritten: the compaction and release as written from the
        block the inner loop read last, lbs, in each of the shapes the flags name. */
    method CloseIndirectAsWritten(inode: Inode, remBlk: int, remSlot: nat, buf: seq<Dirent>, numDirents: int,
                                  ghost dir: Inode, ghost j: nat, ghost lbs: nat,
                                  ghost located: bool, ghost sound: bool, ghost clobber: bool, ghost stale: bool)
      returns (r: int)
      requires Valid() && |buf| == DIRENTS_PER_BLOCK && remSlot < DIRENTS_PER_BLOCK
      requires located || sound || clobber || stale ==> Located(disk, dataBitmap[..], dir, inode, remBlk, remSlot, j)
      requires sound || clobber ==> buf == DirentsOf(Get(disk, remBlk))
      requires sound ==> !ReleasesIntoPointerBlock(Count(inode), numDirents)
      requires clobber ==> ReleasesIntoPointerBlock(Count(inode), numDirents)
      requires stale ==>
        && Count(inode) % DIRENTS_PER_BLOCK != 0
        && NUM_DIRECT <= j / DIRENTS_PER_BLOCK < lbs && lbs * DIRENTS_PER_BLOCK + 1 < Count(dir)
        && buf == DirentsOf(Get(disk, PtrAt(disk, dir, lbs)))
      modifies this, dataBitmap
      ensures r == 0 || r == -1
      ensures r == -1 ==> disk == old(disk) && dataBitmap[..] == old(dataBitmap[..])
      ensures OnlyCleared(old(dataBitmap[..]), dataBitmap[..])
      ensures located ==> r == 0
      ensures sound ==> r == 0 && Removed(old(disk), dir, disk, dataBitmap[..], j)
      ensures clobber ==> r == 0 && ReadInode(disk, dir.ino) == inode && !DirValid(disk, inode, dataBitmap[..])
      ensures stale ==>
        && r == 0 && ReadInode(disk, dir.ino) == inode && dataBitmap[..] == old(dataBitmap[..])
        && (Distinct(Entries(old(disk), dir)) ==> Entries(disk, inode) != SwapRemove(Entries(old(disk), dir), j))
    {
      ghost var d0 := disk;
      ghost var bm0 := dataBitmap[..];
      r := CloseGapAsWritten(inode, remBlk, remSlot, buf, numDirents, dir, j, lbs);
      if stale {
        StaleWritesInode(d0, dir, j, lbs);
        if Distinct(Entries(d0, dir)) {
          StaleWritesWrong(d0, dir, bm0, j, lbs);
        }
      }
    }

    /** dir_remove as written: the scan for the entry, then the early exit for an entry the
        scan counts alone in its block, and otherwise the compaction as written. -1 when the
        name is not found; starting from a consistent directory, the outcomes are those
        RemovedAsWritten names. */
    method DirRemoveAsWritten(dirInode: Inode, name: seq<char>) returns (r: int)
      requires Valid()
      modifies this, dataBitmap
      ensures r == 0 || r == -1
      ensures OnlyCleared(old(dataBitmap[..]), dataBitmap[..])
      ensures r == -1 ==> disk == old(disk) && dataBitmap[..] == old(dataBitmap[..])
      ensures Find(Scanned(old(disk), dirInode), name).None? ==> r == -1
      ensures RemovedAsWritten(old(disk), old(dataBitmap[..]), dirInode, name, disk, dataBitmap[..], r)
    {
      ghost var d0 := disk;
      ghost var bm0 := dataBitmap[..];
      var lb, i, cnt, blk := LocateEntry(dirInode, name);
      if lb == -1 {
        MissingAsWritten(d0, bm0, dirInode, name);
        return -1;
      }
      if i == 0 && cnt == 1 {
        RemoveLoneLast(dirInode, lb, blk);
        LoneAsWritten(d0, bm0, dirInode, name, disk, dataBitmap[..], lb);
        return 0;
      }
      r := CompactAsWritten(dirInode, name, lb, i, cnt, blk);
      CompactedAsWritten(d0, bm0, dirInode, name, disk, dataBitmap[..], r, lb, i, lb * DIRENTS_PER_BLOCK + i);
    }

    /** rufs_read over the direct blocks: resolve the path from the root, copy `size` bytes
        from `offset` on, block by block, then write the inode record back. */
    method Read(path: seq<char>, size: nat, offset: nat) returns (r: int, buf: seq<byte>)
      requires |path| >= 1 && path[0] == '/' && offset + size <= DIRECT_BYTES
      modifies this
      ensures var f := ResolvePath(old(disk), path, 0);
        && (f.None? ==> r == -ENOENT && disk == old(disk))
        && (f.Some? ==>
              r == size && buf == ReadRange(old(disk), f.value, offset, size)
              && disk == WriteInode(old(disk), f.value.ino, f.value))
    {
      var found, inode := GetNodeByPath(path, 0);
      if found != 0 {
        return -ENOENT, [];
      }
      var tempSize := 0;
      var startBlk: nat, blkReadLoc: nat := SplitOffset(offset);
      buf := [];
      while tempSize < size
        invariant disk == old(disk)
        invariant tempSize == |buf| <= size && blkReadLoc < BLOCK_SIZE
        invariant tempSize < size ==> startBlk * BLOCK_SIZE + blkReadLoc == offset + tempSize
        invariant ReadsAs(disk, inode, offset, buf)
        decreases size - tempSize
      {
        assert startBlk < NUM_DIRECT;
        var block := BytesOf(Get(disk, inode.direct[startBlk]));
        var limit: nat := Min(size - tempSize, BLOCK_SIZE - blkReadLoc);
        ReadMore(disk, inode, offset, buf, startBlk, blkReadLoc, limit);
        buf := buf + block[blkReadLoc..blkReadLoc + limit];
        tempSize := tempSize + limit;
        startBlk := startBlk + 1;
        blkReadLoc := 0;
      }
      ReadsAsRange(disk, inode, offset, buf);
      Writei(inode.ino, inode);
      r := size;
    }

    /** The claim in rufs_write's loop: when direct pointer sb is unset, claim a data block
        for it and write the inode with it. */
    method ClaimForWrite(inode: Inode, sb: nat) returns (r: int, ni: Inode)
      requires Valid() && sb < NUM_DIRECT
      modifies this, dataBitmap
      ensures r == 0 || r == -ENOMEM
      ensures OnlySet(old(dataBitmap[..]), dataBitmap[..])
      ensures r == -ENOMEM ==> inode.direct[sb] == UNALLOCATED && DataFull(dataBitmap[..])
      ensures r == 0 ==> ni == inode.(direct := inode.direct[sb := ni.direct[sb]]) && ni.direct[sb] != UNALLOCATED
      ensures r == 0 && inode.direct[sb] != UNALLOCATED ==>
        ni == inode && disk == old(disk) && dataBitmap[..] == old(dataBitmap[..])
      ensures r == 0 && inode.ino < MAX_INUM && OwnsBlocks(inode, old(dataBitmap[..])) ==>
        OwnsBlocks(ni, dataBitmap[..]) && OtherBlocksKept(old(disk), inode, disk, ni, sb)
    {
      ni := inode;
      if inode.direct[sb] != UNALLOCATED {
        return 0, ni;
      }
      ghost var d0 := disk;
      ghost var bm0 := dataBitmap[..];
      ghost var h := inode.ino < MAX_INUM && OwnsBlocks(inode, bm0);
      var b := GetAvailBlkno();
      AllocSpec(bm0, MAX_DNUM - D_START_BLK);
      ni := inode.(direct := inode.direct[sb := b]);
      if b == -1 {
        return -ENOMEM, ni;
      }
      if h {
        OwnsAfterClaim(inode, bm0, sb, b - D_START_BLK);
      }
      Writei(ni.ino, ni);
      if h {
        forall p: nat | p < DIRECT_BYTES && p / BLOCK_SIZE != sb
          ensures ByteAt(disk, ni, p) == ByteAt(d0, inode, p)
        {
          InodeWriteKeepsBytes(d0, ni, ni.ino, ni, p);
        }
      }
      r := 0;
    }

    /** One pass of rufs_write's loop over direct block sb: the claim, then `src` copied into
        the block at `loc` and the block written back. With owned pointers, the file's bytes
        change at the positions written and nowhere else but the unwritten part of a newly
        claimed block, which shows whatever that block held before. */
    method WriteDirectBlock(inode: Inode, sb: nat, loc: nat, src: seq<byte>) returns (r: int, ni: Inode)
      requires Valid() && sb < NUM_DIRECT && loc + |src| <= BLOCK_SIZE
      modifies this, dataBitmap
      ensures r == 0 || r == -ENOMEM
      ensures OnlySet(old(dataBitmap[..]), dataBitmap[..])
      ensures r == -ENOMEM ==> inode.direct[sb] == UNALLOCATED && DataFull(dataBitmap[..])
      ensures r == 0 ==> ni == inode.(direct := inode.direct[sb := ni.direct[sb]]) && ni.direct[sb] != UNALLOCATED
      ensures r == 0 && inode.direct[sb] != UNALLOCATED ==> ni == inode && dataBitmap[..] == old(dataBitmap[..])
      ensures r == 0 && inode.ino < MAX_INUM && OwnsBlocks(inode, old(dataBitmap[..])) ==>
        && OwnsBlocks(ni, dataBitmap[..])
        && ReadsAs(disk, ni, sb * BLOCK_SIZE + loc, src)
        && OtherBlocksKept(old(disk), inode, disk, ni, sb)
        && (inode.direct[sb] != UNALLOCATED ==>
              KeptOutside(old(disk), inode, disk, ni, sb * BLOCK_SIZE + loc, sb * BLOCK_SIZE + loc + |src|))
    {
      ghost var d0 := disk;
      ghost var h := inode.ino < MAX_INUM && OwnsBlocks(inode, dataBitmap[..]);
      r, ni := ClaimForWrite(inode, sb);
      if r != 0 {
        return;
      }
      ghost var d1 := disk;
      if h {
        StoreBlock(d1, ni, dataBitmap[..], sb, loc, src);
      }
      var blk := ni.direct[sb];
      var block := BytesOf(Get(disk, blk));
      block := Splice(block, loc, src);
      disk := disk[blk := DataBlk(block)];
      if h {
        OtherBlocksChain(d0, inode, d1, ni, disk, ni, sb);
      }
    }

    /** One pass of the loop of rufs_write: the piece of `buffer` from tempSize on that fits
        in direct block startBlk from loc on, written there by WriteDirectBlock; `limit` is
        its length. */
    method WriteStep(inode: Inode, buffer: seq<byte>, offset: nat, ni0: Inode, tempSize: nat, startBlk: nat,
                     loc: nat, ghost d0: Disk, ghost h: bool)
      returns (r: int, ni: Inode, limit: nat)
      requires Valid() && offset + |buffer| <= DIRECT_BYTES && tempSize < |buffer| && loc < BLOCK_SIZE
      requires startBlk * BLOCK_SIZE + loc == offset + tempSize && (tempSize > 0 ==> loc == 0)
      requires ni0 == inode.(direct := ni0.direct) && KeepsAllocated(inode, ni0)
      requires h ==>
        && inode.ino < MAX_INUM && OwnsBlocks(ni0, dataBitmap[..]) && ReadsAs(disk, ni0, offset, buffer[..tempSize])
        && KeptOutside(d0, inode, disk, ni0, offset, offset + tempSize)
      modifies this, dataBitmap
      ensures r == 0 || r == -ENOMEM
      ensures r == -ENOMEM ==> DataFull(dataBitmap[..])
      ensures OnlySet(old(dataBitmap[..]), dataBitmap[..])
      ensures limit == Min(|buffer| - tempSize, BLOCK_SIZE - loc)
      ensures r == 0 ==> ni == inode.(direct := ni.direct) && KeepsAllocated(inode, ni)
      ensures r == 0 && h ==>
        && OwnsBlocks(ni, dataBitmap[..]) && ReadsAs(disk, ni, offset, buffer[..tempSize + limit])
        && KeptOutside(d0, inode, disk, ni, offset, offset + tempSize + limit)
    {
      assert startBlk < NUM_DIRECT;
      limit := Min(|buffer| - tempSize, BLOCK_SIZE - loc);
      ghost var d1 := disk;
      var src := buffer[tempSize..tempSize + limit];
      r, ni := WriteDirectBlock(ni0, startBlk, loc, src);
      if r != 0 {
        return;
      }
      if h {
        WriteMore(d0, inode, d1, ni0, disk, ni, offset, buffer, tempSize, startBlk, loc, limit, src);
      }
    }

    /** The loop of rufs_write over the direct blocks: copy `buffer` in from `offset` on,
        block by block, claiming blocks for unset pointers; -ENOMEM when a claim fails. */
    method WriteBlocks(inode: Inode, buffer: seq<byte>, offset: nat) returns (r: int, ni: Inode)
      requires Valid() && offset + |buffer| <= DIRECT_BYTES
      modifies this, dataBitmap
      ensures r == 0 || r == -ENOMEM
      ensures r == -ENOMEM ==> DataFull(dataBitmap[..])
      ensures OnlySet(old(dataBitmap[..]), dataBitmap[..])
      ensures r == 0 ==> ni == inode.(direct := ni.direct)
      ensures r == 0 ==> KeepsAllocated(inode, ni)
      ensures r == 0 && inode.ino < MAX_INUM && OwnsBlocks(inode, old(dataBitmap[..])) ==>
        && OwnsBlocks(ni, dataBitmap[..])
        && ReadsAs(disk, ni, offset, buffer)
        && KeptOutside(old(disk), inode, disk, ni, offset, offset + |buffer|)
    {
      ghost var d0 := disk;
      ghost var h := inode.ino < MAX_INUM && OwnsBlocks(inode, dataBitmap[..]);
      ghost var bm0 := dataBitmap[..];
      ni := inode;
      var size := |buffer|;
      var tempSize := 0;
      var startBlk: nat, blkWriteLoc: nat := SplitOffset(offset);
      while tempSize < size
        invariant tempSize <= size && blkWriteLoc < BLOCK_SIZE
        invariant tempSize < size ==> startBlk * BLOCK_SIZE + blkWriteLoc == offset + tempSize
        invariant tempSize > 0 ==> blkWriteLoc == 0
        invariant OnlySet(bm0, dataBitmap[..])
        invariant ni == inode.(direct := ni.direct) && KeepsAllocated(inode, ni)
        invariant h ==> OwnsBlocks(ni, dataBitmap[..])
        invariant h ==> ReadsAs(disk, ni, offset, buffer[..tempSize])
        invariant h ==> KeptOutside(d0, inode, disk, ni, offset, offset + tempSize)
        decreases size - tempSize
      {
        var limit;
        r, ni, limit := WriteStep(inode, buffer, offset, ni, tempSize, startBlk, blkWriteLoc, d0, h);
        if r != 0 {
          return;
        }
        tempSize := tempSize + limit;
        startBlk := startBlk + 1;
        blkWriteLoc := 0;
      }
      assert buffer[..tempSize] == buffer;
      r := 0;
    }

    /** rufs_write over the direct blocks: resolve the path from the root, write the blocks,
        then set the size to offset + |buffer| and write the inode. Starting from a file whose
        pointers are owned, the bytes written read back, and every byte of an already
        allocated block outside the range written is kept. */
    method Write(path: seq<char>, buffer: seq<byte>, offset: nat) returns (r: int)
      requires Valid() && |path| >= 1 && path[0] == '/' && offset + |buffer| <= DIRECT_BYTES
      modifies this, dataBitmap
      ensures r == |buffer| || r == -ENOENT || r == -ENOMEM
      ensures r == -ENOENT <==> ResolvePath(old(disk), path, 0).None?
      ensures r == -ENOENT ==> disk == old(disk) && dataBitmap[..] == old(dataBitmap[..])
      ensures r == -ENOMEM ==> DataFull(dataBitmap[..])
      ensures OnlySet(old(dataBitmap[..]), dataBitmap[..])
      ensures var f := ResolvePath(old(disk), path, 0);
        f.Some? && f.value.ino < MAX_INUM && OwnsBlocks(f.value, old(dataBitmap[..])) && r == |buffer| ==>
          var ni := ReadInode(disk, f.value.ino);
          && ni == f.value.(direct := ni.direct, size := offset + |buffer|)
          && OwnsBlocks(ni, dataBitmap[..])
          && (forall j :: 0 <= j < NUM_DIRECT && f.value.direct[j] != UNALLOCATED ==> ni.direct[j] == f.value.direct[j])
          && ReadRange(disk, ni, offset, |buffer|) == buffer
          && KeptOutside(old(disk), f.value, disk, ni, offset, offset + |buffer|)
    {
      ghost var d0 := disk;
      ghost var bm0 := dataBitmap[..];
      var found, inode := GetNodeByPath(path, 0);
      if found != 0 {
        return -ENOENT;
      }
      ghost var h := inode.ino < MAX_INUM && OwnsBlocks(inode, bm0);
      var rc, ni := WriteBlocks(inode, buffer, offset);
      if rc != 0 {
        return -ENOMEM;
      }
      if h {
        SizeWriteKeepsBytes(d0, inode, disk, ni, dataBitmap[..], offset, buffer, offset + |buffer|);
      }
      ghost var d2 := disk;
      ni := ni.(size := offset + |buffer|);
      Writei(ni.ino, ni);
      ReadAfterWrite(d2, ni.ino, ni);
      r := |buffer|;
    }
  }
}
