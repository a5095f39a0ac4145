/** dir_remove as the code is written, against the removal it evidently intends.

    Two things go wrong in the indirect part. The inner loop over a pointer block goes on
    reading blocks into the buffer of the matched block after the match, so the compaction
    writes a later block's entries over the matched one. And the release of an emptied
    indirect block writes back the buffer holding the last block's entries where the pointer
    block belongs. Which of the two happens, if either, depends only on the entry count n and
    the position j of the removed entry. */
module RemoveAsWritten {
  import opened Layout
  import opened InodeStore
  import opened Directory
  import opened DirectoryFrame

  /** No entry occurs twice; dir_add refuses a name already present, so this holds of every
      directory it builds. */
  predicate Distinct(s: seq<Dirent>) {
    forall p, q :: 0 <= p < q < |s| ==> s[p] != s[q]
  }

  /** Removing entry j of n the code does what it intends: the entry is in a direct block,
      or in the last block, or it is in the last full block with one entry after that block
      and the block emptied is the first of its group. */
  predicate RemovesSoundly(n: nat, j: nat) {
    var b := j / DIRENTS_PER_BLOCK;
    b < NUM_DIRECT || n <= (b + 1) * DIRENTS_PER_BLOCK
    || (n == (b + 1) * DIRENTS_PER_BLOCK + 1 && IndexInGroup(b + 1) == 0)
  }

  /** The entry is in an indirect block, one entry follows that block, and the block that
      one entry occupies is not the first of its group: the release overwrites a pointer block
      still in use. */
  predicate ClobbersPointerBlock(n: nat, j: nat) {
    var b := j / DIRENTS_PER_BLOCK;
    b >= NUM_DIRECT && n == (b + 1) * DIRENTS_PER_BLOCK + 1 && IndexInGroup(b + 1) != 0
  }

  /** The entry is in an indirect block that is not the last of its group, and at least two
      entries follow that block, so the scan reads on into the next block; the new count is
      not a whole number of blocks, so no block is released. */
  predicate LeavesStaleEntries(n: nat, j: nat) {
    var b := j / DIRENTS_PER_BLOCK;
    && b >= NUM_DIRECT && n >= (b + 1) * DIRENTS_PER_BLOCK + 2
    && IndexInGroup(b) < PTRS_PER_BLOCK - 1 && (n - 1) % DIRENTS_PER_BLOCK != 0
  }

  /** The block of an indirect entry, a later used block and the pointer block of the first
      are three different owned blocks. */
  lemma {:induction false} ThreeApart(d: Disk, dir: Inode, bm: seq<bool>, b: nat, lbL: nat)
    requires DirValid(d, dir, bm) && NUM_DIRECT <= b < lbL < BlocksFor(Count(dir))
    ensures lbL < MAX_LBLOCKS
    ensures var pg := dir.indirect[GroupOf(b)];
      && PtrAt(d, dir, b) != PtrAt(d, dir, lbL) && pg != PtrAt(d, dir, b) && pg != PtrAt(d, dir, lbL)
      && Owned(bm, pg) && Owned(bm, PtrAt(d, dir, b)) && Owned(bm, PtrAt(d, dir, lbL))
  {
    UsedBlock(d, dir, bm, b);
    UsedBlock(d, dir, bm, lbL);
    UsedGroup(d, dir, bm, b);
    RefPosIsPtrAt(d, dir, b);
    RefPosIsPtrAt(d, dir, lbL);
    assert Ref(d, dir, RefPos(b)) == PtrAt(d, dir, b);
    assert Ref(d, dir, RefPos(lbL)) == PtrAt(d, dir, lbL);
  }

  /** The disk after the compaction is carried out with the contents of a later block lbs
      in the buffer of entry j's block, and the directory's inode is written one entry
      smaller. */
  function StaleWrites(d: Disk, dir: Inode, j: nat, lbs: nat): Disk
    requires j < Count(dir) <= MAX_ENTRIES && lbs < MAX_LBLOCKS
  {
    var inode := dir.(size := dir.size - DIRENT_SIZE);
    assert Count(inode) == Count(dir) - 1;
    WriteInode(MovedLast(d, inode, PtrAt(d, dir, j / DIRENTS_PER_BLOCK), j % DIRENTS_PER_BLOCK,
      DirentsOf(Get(d, PtrAt(d, dir, lbs)))), dir.ino, inode)
  }

  /** The compaction writes with the contents of block lbs in the buffer keep the pointer
      block of entry j's group, and leave in entry j's block the contents of block lbs at
      every slot but j's. */
  lemma {:induction false} StaleMoved(d: Disk, dir: Inode, bm: seq<bool>, j: nat, lbs: nat, inode: Inode)
    requires DirValid(d, dir, bm) && j < Count(dir) && inode == dir.(size := dir.size - DIRENT_SIZE)
    requires NUM_DIRECT <= j / DIRENTS_PER_BLOCK < lbs && lbs * DIRENTS_PER_BLOCK + 1 < Count(dir)
    ensures Count(inode) / DIRENTS_PER_BLOCK < MAX_LBLOCKS
    ensures var b := j / DIRENTS_PER_BLOCK;
      var pg := dir.indirect[GroupOf(b)];
      var remBlk := PtrAt(d, dir, b);
      var buf := DirentsOf(Get(d, PtrAt(d, dir, lbs)));
      var m := MovedLast(d, inode, remBlk, j % DIRENTS_PER_BLOCK, buf);
      && D_START_BLK <= pg && D_START_BLK <= remBlk
      && Get(m, pg) == Get(d, pg)
      && DirentsOf(Get(m, remBlk))[Neighbour(j)] == buf[Neighbour(j)]
  {
    var n := Count(dir);
    var b := j / DIRENTS_PER_BLOCK;
    CountLess(dir, inode);
    var lbL := (n - 1) / DIRENTS_PER_BLOCK;
    BlocksCover(n);
    assert b < lbL < BlocksFor(n);
    ThreeApart(d, dir, bm, b, lbL);
    StaleCells(d, dir, inode, j, lbs);
  }

  /** StaleMoved once the three blocks are known to be apart. */
  lemma {:induction false} StaleCells(d: Disk, dir: Inode, inode: Inode, j: nat, lbs: nat)
    requires dir.size >= DIRENT_SIZE && inode == dir.(size := dir.size - DIRENT_SIZE) && Count(inode) == Count(dir) - 1
    requires j < Count(dir) <= MAX_ENTRIES && NUM_DIRECT <= j / DIRENTS_PER_BLOCK < lbs < MAX_LBLOCKS
    requires Count(inode) / DIRENTS_PER_BLOCK < MAX_LBLOCKS
    requires var b := j / DIRENTS_PER_BLOCK;
      var pg := dir.indirect[GroupOf(b)];
      var lbL := Count(inode) / DIRENTS_PER_BLOCK;
      && D_START_BLK <= pg && D_START_BLK <= PtrAt(d, dir, b)
      && pg != PtrAt(d, dir, b) && pg != PtrAt(d, dir, lbL) && PtrAt(d, dir, b) != PtrAt(d, dir, lbL)
    ensures var b := j / DIRENTS_PER_BLOCK;
      var pg := dir.indirect[GroupOf(b)];
      var remBlk := PtrAt(d, dir, b);
      var buf := DirentsOf(Get(d, PtrAt(d, dir, lbs)));
      var m := MovedLast(d, inode, remBlk, j % DIRENTS_PER_BLOCK, buf);
      && Get(m, pg) == Get(d, pg)
      && DirentsOf(Get(m, remBlk))[Neighbour(j)] == buf[Neighbour(j)]
  {
    var b := j / DIRENTS_PER_BLOCK;
    var lbL := Count(inode) / DIRENTS_PER_BLOCK;
    assert PtrAt(d, inode, lbL) == PtrAt(d, dir, lbL);
    MovedLastCells(d, inode, PtrAt(d, dir, b), j % DIRENTS_PER_BLOCK, DirentsOf(Get(d, PtrAt(d, dir, lbs))),
      dir.indirect[GroupOf(b)]);
  }

  /** The same after the writei of the directory's inode. */
  lemma {:induction false} StaleBlocks(d: Disk, dir: Inode, bm: seq<bool>, j: nat, lbs: nat)
    requires DirValid(d, dir, bm) && dir.ino < MAX_INUM && j < Count(dir)
    requires NUM_DIRECT <= j / DIRENTS_PER_BLOCK < lbs && lbs * DIRENTS_PER_BLOCK + 1 < Count(dir)
    ensures var b := j / DIRENTS_PER_BLOCK;
      && Get(StaleWrites(d, dir, j, lbs), dir.indirect[GroupOf(b)]) == Get(d, dir.indirect[GroupOf(b)])
      && DirentsOf(Get(StaleWrites(d, dir, j, lbs), PtrAt(d, dir, b)))[Neighbour(j)]
         == DirentsOf(Get(d, PtrAt(d, dir, lbs)))[Neighbour(j)]
  {
    var inode := dir.(size := dir.size - DIRENT_SIZE);
    StaleMoved(d, dir, bm, j, lbs, inode);
    var m := StaleWritesSplit(d, dir, j, lbs);
    StaleInodeWrite(m, dir.ino, inode, dir.indirect[GroupOf(j / DIRENTS_PER_BLOCK)], PtrAt(d, dir, j / DIRENTS_PER_BLOCK));
  }

  /** StaleWrites is the compaction writes m followed by the writei of the inode. */
  lemma StaleWritesSplit(d: Disk, dir: Inode, j: nat, lbs: nat) returns (m: Disk)
    requires j < Count(dir) <= MAX_ENTRIES && lbs < MAX_LBLOCKS
    ensures Count(dir.(size := dir.size - DIRENT_SIZE)) / DIRENTS_PER_BLOCK < MAX_LBLOCKS
    ensures m == MovedLast(d, dir.(size := dir.size - DIRENT_SIZE), PtrAt(d, dir, j / DIRENTS_PER_BLOCK),
      j % DIRENTS_PER_BLOCK, DirentsOf(Get(d, PtrAt(d, dir, lbs))))
    ensures StaleWrites(d, dir, j, lbs) == WriteInode(m, dir.ino, dir.(size := dir.size - DIRENT_SIZE))
  {
    var inode := dir.(size := dir.size - DIRENT_SIZE);
    CountLess(dir, inode);
    m := MovedLast(d, inode, PtrAt(d, dir, j / DIRENTS_PER_BLOCK), j % DIRENTS_PER_BLOCK,
      DirentsOf(Get(d, PtrAt(d, dir, lbs))));
  }

  /** A writei touches no block of the data region. */
  lemma StaleInodeWrite(m: Disk, ino: nat, v: Inode, pg: int, remBlk: int)
    requires ino < MAX_INUM && D_START_BLK <= pg && D_START_BLK <= remBlk
    ensures Get(WriteInode(m, ino, v), pg) == Get(m, pg)
    ensures Get(WriteInode(m, ino, v), remBlk) == Get(m, remBlk)
  {
    TableBelowData(ino);
    WriteLeavesOtherBlocks(m, ino, v, pg);
    WriteLeavesOtherBlocks(m, ino, v, remBlk);
  }

  /** The slot next to entry j's: slot 1 when j is at slot 0, slot 0 otherwise. */
  function Neighbour(j: nat): (t: nat)
    ensures t < DIRENTS_PER_BLOCK && t != j % DIRENTS_PER_BLOCK && t <= 1
  {
    if j % DIRENTS_PER_BLOCK == 0 then 1 else 0
  }

  /** Entry j's neighbour comes before slot t of block lbs and is neither entry j nor the
      last entry. */
  lemma StalePositions(j: nat, lbs: nat, n: nat)
    requires j < n && j / DIRENTS_PER_BLOCK < lbs && lbs * DIRENTS_PER_BLOCK + 1 < n
    ensures var p := j / DIRENTS_PER_BLOCK * DIRENTS_PER_BLOCK + Neighbour(j);
      var q := lbs * DIRENTS_PER_BLOCK + Neighbour(j);
      p < q < n && p != j && p < n - 1
  {
    assert j == j / DIRENTS_PER_BLOCK * DIRENTS_PER_BLOCK + j % DIRENTS_PER_BLOCK;
  }

  /** One entry less in the size is one entry less in the count. */
  lemma CountLess(dir: Inode, inode: Inode)
    requires dir.size >= DIRENT_SIZE && inode == dir.(size := dir.size - DIRENT_SIZE)
    ensures Count(inode) == Count(dir) - 1
  {
  }

  /** After those writes the directory's inode reads as the record written, one entry
      smaller. */
  lemma StaleWritesInode(d: Disk, dir: Inode, j: nat, lbs: nat)
    requires j < Count(dir) <= MAX_ENTRIES && lbs < MAX_LBLOCKS
    ensures ReadInode(StaleWrites(d, dir, j, lbs), dir.ino) == dir.(size := dir.size - DIRENT_SIZE)
  {
  }

  /** A disk that keeps the pointer block of the group of indirect block b and holds at slot
      t of b what slot t of block lbs held: entry p = b * 19 + t of the directory now reads
      as entry q = lbs * 19 + t read before. */
  lemma {:induction false} StaleEntry(d: Disk, dw: Disk, dir: Inode, inode: Inode, b: nat, t: nat, lbs: nat,
                                      p: nat, q: nat)
    requires NUM_DIRECT <= b < MAX_LBLOCKS && lbs < MAX_LBLOCKS && t < DIRENTS_PER_BLOCK
    requires p == b * DIRENTS_PER_BLOCK + t && q == lbs * DIRENTS_PER_BLOCK + t
    requires inode.direct == dir.direct && inode.indirect == dir.indirect
    requires Get(dw, dir.indirect[GroupOf(b)]) == Get(d, dir.indirect[GroupOf(b)])
    requires DirentsOf(Get(dw, PtrAt(d, dir, b)))[t] == DirentsOf(Get(d, PtrAt(d, dir, lbs)))[t]
    ensures p < MAX_ENTRIES && q < MAX_ENTRIES
    ensures EntryAt(dw, inode, p) == EntryAt(d, dir, q)
  {
    assert PtrAt(dw, inode, b) == PtrAt(d, dir, b);
    EntryPosition(b, t);
    EntryPosition(lbs, t);
  }

  /** A directory one entry smaller whose entry p, other than j, now reads as an entry q
      that differs from entry p, does not list the entries of a removal of entry j. */
  lemma {:induction false} EntriesDiffer(d: Disk, dw: Disk, dir: Inode, inode: Inode, j: nat, p: nat, q: nat)
    requires j < Count(dir) <= MAX_ENTRIES && Count(inode) == Count(dir) - 1
    requires p < Count(inode) && p != j && q < MAX_ENTRIES
    requires EntryAt(dw, inode, p) == EntryAt(d, dir, q) && EntryAt(d, dir, p) != EntryAt(d, dir, q)
    ensures Entries(dw, inode) != SwapRemove(Entries(d, dir), j)
  {
    assert Entries(dw, inode)[p] == EntryAt(dw, inode, p);
    assert SwapRemove(Entries(d, dir), j)[p] == Entries(d, dir)[p];
  }

  /** The compaction carried out with the contents of a later block lbs in the buffer of
      entry j's block, followed by the writei, leaves a directory whose entries are not those
      of a removal of entry j. */
  lemma {:induction false} StaleWritesWrong(d: Disk, dir: Inode, bm: seq<bool>, j: nat, lbs: nat)
    requires DirValid(d, dir, bm) && dir.ino < MAX_INUM && j < Count(dir)
    requires NUM_DIRECT <= j / DIRENTS_PER_BLOCK < lbs && lbs * DIRENTS_PER_BLOCK + 1 < Count(dir)
    requires Distinct(Entries(d, dir))
    ensures Entries(StaleWrites(d, dir, j, lbs), dir.(size := dir.size - DIRENT_SIZE))
      != SwapRemove(Entries(d, dir), j)
  {
    var n := Count(dir);
    var inode := dir.(size := dir.size - DIRENT_SIZE);
    CountLess(dir, inode);
    var b := j / DIRENTS_PER_BLOCK;
    var t := Neighbour(j);
    var p := b * DIRENTS_PER_BLOCK + t;
    var q := lbs * DIRENTS_PER_BLOCK + t;
    StalePositions(j, lbs, n);
    var dw := StaleWrites(d, dir, j, lbs);
    StaleBlocks(d, dir, bm, j, lbs);
    SamePointerFields(d, dir, inode);
    StaleEntry(d, dw, dir, inode, b, t, lbs, p, q);
    assert Entries(d, dir)[p] == EntryAt(d, dir, p) && Entries(d, dir)[q] == EntryAt(d, dir, q);
    EntriesDiffer(d, dw, dir, inode, j, p, q);
  }

  /** The name matches at most one entry; dir_add refuses a name already present. */
  predicate NamedOnce(s: seq<Dirent>, name: seq<char>) {
    forall p, q :: 0 <= p < |s| && 0 <= q < |s| && Matches(s[p], name) && Matches(s[q], name) ==> p == q
  }

  /** The state the compaction starts from: a consistent directory whose entry j is to be
      removed, the inode one entry smaller, and the block and slot of entry j. */
  ghost predicate Located(d: Disk, bm: seq<bool>, dir: Inode, inode: Inode, remBlk: int, remSlot: nat, j: nat) {
    && Consistent(d, dir, bm) && j < Count(dir) && inode == dir.(size := dir.size - DIRENT_SIZE)
    && remBlk == PtrAt(d, dir, j / DIRENTS_PER_BLOCK) && remSlot == j % DIRENTS_PER_BLOCK
  }

  /** The entry the scan found at slot i of block lb of a consistent directory, with the
      record one entry smaller: the compaction starts from there. */
  lemma FoundLocated(d: Disk, bm: seq<bool>, dir: Inode, inode: Inode, blk: int, lb: nat, i: nat)
    requires Consistent(d, dir, bm) && i < DIRENTS_PER_BLOCK && lb * DIRENTS_PER_BLOCK + i < Count(dir)
    requires blk == PtrAt(d, dir, lb) && inode == dir.(size := dir.size - DIRENT_SIZE)
    ensures Located(d, bm, dir, inode, blk, i, lb * DIRENTS_PER_BLOCK + i) && dir.size % DIRENT_SIZE == 0
  {
    EntryPosition(lb, i);
  }

  /** Shrinking the size changes no entry: no entry past block lb matches in the one record
      exactly when none does in the other. */
  lemma ShrunkNoMatchAfter(d: Disk, dir: Inode, inode: Inode, lb: nat, n: nat, name: seq<char>)
    requires inode.direct == dir.direct && inode.indirect == dir.indirect
    ensures NoMatchAfter(d, inode, lb, n, name) == NoMatchAfter(d, dir, lb, n, name)
  {
    SamePointerFields(d, dir, inode);
  }

  /** With m entries left, the code frees the last block (the count is a whole number of
      blocks and numDirents is 1), and that block is indirect but not the first of its group,
      so its pointer block is the one the release overwrites and keeps. */
  predicate ReleasesIntoPointerBlock(m: nat, numDirents: int) {
    && m % DIRENTS_PER_BLOCK == 0 && numDirents == 1
    && m / DIRENTS_PER_BLOCK >= NUM_DIRECT && IndexInGroup(m / DIRENTS_PER_BLOCK) != 0
  }

  /** The counts the scan leaves when it finds entry j = lb * 19 + i of n, counting cnt
      entries in block lb and nd after it, in each of the three shapes. */
  lemma {:induction false} ShapeCounts(n: nat, lb: nat, i: nat, cnt: nat, nd: int)
    requires i < cnt && lb * DIRENTS_PER_BLOCK + i < n
    requires cnt == Min(n - lb * DIRENTS_PER_BLOCK, DIRENTS_PER_BLOCK)
    requires nd == n - lb * DIRENTS_PER_BLOCK - cnt
    ensures var j := lb * DIRENTS_PER_BLOCK + i;
      && j / DIRENTS_PER_BLOCK == lb && j % DIRENTS_PER_BLOCK == i && nd >= 0
      && (RemovesSoundly(n, j) && lb >= NUM_DIRECT ==> n - nd >= n - 1)
      && (RemovesSoundly(n, j) && !(i == 0 && cnt == 1) ==> !ReleasesIntoPointerBlock(n - 1, nd))
      && (ClobbersPointerBlock(n, j) ==>
            !(i == 0 && cnt == 1) && n - nd == n - 1 && ReleasesIntoPointerBlock(n - 1, nd))
      && (LeavesStaleEntries(n, j) ==>
            !(i == 0 && cnt == 1) && n - nd < n - 1 && (n - 1) % DIRENTS_PER_BLOCK != 0)
  {
    EntryPosition(lb, i);
  }

  /** The counts of the inner loop over a pointer block when the scan has found entry
      j = lb * 19 + i of the n a directory of `size` bytes holds, in an indirect block lb:
      the decremented size, the entries left after block lb, the bytes read so far, and,
      for a size that is a whole number of entries, whether the loop reads on. */
  lemma {:induction false} ScanOnCounts(size: nat, n: nat, lb: nat, i: nat, cnt: nat, nd: int, sizeRead: int)
    requires n == size / DIRENT_SIZE && NUM_DIRECT <= lb && lb * DIRENTS_PER_BLOCK + i < n && i < cnt
    requires cnt == Min(n - lb * DIRENTS_PER_BLOCK, DIRENTS_PER_BLOCK) && nd == n - lb * DIRENTS_PER_BLOCK - cnt
    requires sizeRead == (n - nd) * DIRENT_SIZE
    ensures size >= DIRENT_SIZE && (n - 1) * DIRENT_SIZE <= size - DIRENT_SIZE < n * DIRENT_SIZE
    ensures 0 <= nd && (nd == 0 || n - nd == (lb + 1) * DIRENTS_PER_BLOCK)
    ensures var j := lb * DIRENTS_PER_BLOCK + i;
      size % DIRENT_SIZE == 0 ==>
        && size - DIRENT_SIZE == (n - 1) * DIRENT_SIZE
        && (RemovesSoundly(n, j) || ClobbersPointerBlock(n, j) ==> sizeRead >= size - DIRENT_SIZE)
        && (LeavesStaleEntries(n, j) ==> sizeRead < size - DIRENT_SIZE && IndexInGroup(lb) < PTRS_PER_BLOCK - 1)
  {
    ShapeCounts(n, lb, i, cnt, nd);
  }

  /** A block read by that loop starts below the last of the n - 1 entries left. */
  lemma LastReadBelow(lbm: nat, n: nat)
    requires n >= 1 && lbm * DIRENTS_PER_BLOCK * DIRENT_SIZE < (n - 1) * DIRENT_SIZE
    ensures lbm * DIRENTS_PER_BLOCK + 1 < n
  {
  }

  /** Freeing indirect block lb, not the first of its group, by writing the buffer of the
      last block over its pointer block, then the writei of the inode: the pointer block of a
      group still in use now holds directory entries, and the directory is not consistent. */
  lemma {:induction false} ReleaseClobbers(d: Disk, inode: Inode, bm: seq<bool>, lb: nat, tail: seq<Dirent>,
                                           bm2: seq<bool>)
    requires Releasable(d, inode, bm, lb) && lb >= NUM_DIRECT && IndexInGroup(lb) != 0
    requires inode.ino < MAX_INUM
    ensures var d2 := WriteInode(d[inode.indirect[GroupOf(lb)] := DirentBlk(tail)], inode.ino, inode);
      ReadInode(d2, inode.ino) == inode && !DirValid(d2, inode, bm2)
  {
    var g := GroupOf(lb);
    var pblk := inode.indirect[g];
    var d1 := d[pblk := DirentBlk(tail)];
    assert Ref(d, inode, NUM_DIRECT + g) == pblk;
    TableBelowData(inode.ino);
    WriteLeavesOtherBlocks(d1, inode.ino, inode, pblk);
    ReadAfterWrite(d1, inode.ino, inode);
    assert lb == NUM_DIRECT + g * PTRS_PER_BLOCK + IndexInGroup(lb);
    ClobberedPointerBlock(WriteInode(d1, inode.ino, inode), inode, bm2, g);
  }

  /** No entry past block lb0, among the first n, matches the name. */
  predicate NoMatchAfter(d: Disk, inode: Inode, lb0: nat, n: nat, name: seq<char>) {
    forall j :: (lb0 + 1) * DIRENTS_PER_BLOCK <= j < n && j < MAX_ENTRIES ==> !Matches(EntryAt(d, inode, j), name)
  }

  /** A match at slot i of the buffer read from logical block lb, past block lb0, whose
      entries start at entry n - nd of n, is a match of an entry past block lb0. */
  lemma LaterMatch(d: Disk, inode: Inode, lb0: nat, n: nat, lb: nat, i: nat, ents: seq<Dirent>, name: seq<char>,
                   nd: int)
    requires lb0 < lb < MAX_LBLOCKS && i < DIRENTS_PER_BLOCK && i < nd && n - nd == lb * DIRENTS_PER_BLOCK
    requires ents == DirentsOf(Get(d, PtrAt(d, inode, lb))) && Matches(ents[i], name)
    ensures !NoMatchAfter(d, inode, lb0, n, name)
  {
    EntryPosition(lb, i);
    var j := lb * DIRENTS_PER_BLOCK + i;
    assert j < MAX_ENTRIES && Matches(EntryAt(d, inode, j), name);
  }

  /** When the name matches one entry only, and the scan found it in block lb, no entry past
      that block matches. */
  lemma {:induction false} OnlyMatchFound(d: Disk, dir: Inode, name: seq<char>, lb: nat, i: nat)
    requires Count(dir) <= MAX_ENTRIES && i < DIRENTS_PER_BLOCK
    requires NamedOnce(Entries(d, dir), name) && Find(Entries(d, dir), name) == Some(lb * DIRENTS_PER_BLOCK + i)
    ensures NoMatchAfter(d, dir, lb, Count(dir), name)
  {
    var s := Entries(d, dir);
    forall q | (lb + 1) * DIRENTS_PER_BLOCK <= q < Count(dir) && q < MAX_ENTRIES
      ensures !Matches(EntryAt(d, dir, q), name)
    {
      assert s[q] == EntryAt(d, dir, q);
      assert Matches(s[lb * DIRENTS_PER_BLOCK + i], name);
    }
  }

  /** What dir_remove as written leaves behind, starting from a consistent directory: -1
      exactly when the name is missing (when it names one entry), the entry found removed in
      the shapes RemovesSoundly names, the last block released when the entry was alone in
      it, the directory left inconsistent in the shape ClobbersPointerBlock names, and, in
      the shape LeavesStaleEntries names with the name matching one entry only, a directory
      one entry smaller that does not list the old entries less the one removed. */
  ghost predicate RemovedAsWritten(d0: Disk, bm0: seq<bool>, dir: Inode, name: seq<char>,
                                   d: Disk, bm: seq<bool>, r: int) {
    Consistent(d0, dir, bm0) ==>
      var found := Find(Entries(d0, dir), name);
      var ni := ReadInode(d, dir.ino);
      && (NamedOnce(Entries(d0, dir), name) ==> (r == 0 <==> found.Some?))
      && (found.Some? && RemovesSoundly(Count(dir), found.value) ==>
            r == 0 && Removed(d0, dir, d, bm, found.value))
      && (found.Some? && found.value + 1 == Count(dir) && found.value % DIRENTS_PER_BLOCK == 0 ==>
            r == 0 && BlockReleased(d0, dir, bm0, d, bm, found.value))
      && (found.Some? && ClobbersPointerBlock(Count(dir), found.value) ==>
            r == 0 && ni == dir.(size := dir.size - DIRENT_SIZE) && !DirValid(d, ni, bm))
      && (found.Some? && LeavesStaleEntries(Count(dir), found.value) && NamedOnce(Entries(d0, dir), name) ==>
            && r == 0 && ni == dir.(size := dir.size - DIRENT_SIZE) && bm == bm0
            && (Distinct(Entries(d0, dir)) ==> Entries(d, ni) != SwapRemove(Entries(d0, dir), found.value)))
  }

  /** A name the directory does not hold: -1, nothing changed. */
  lemma MissingAsWritten(d0: Disk, bm0: seq<bool>, dir: Inode, name: seq<char>)
    requires Find(Scanned(d0, dir), name).None?
    ensures RemovedAsWritten(d0, bm0, dir, name, d0, bm0, -1)
  {
    if Consistent(d0, dir, bm0) {
      ValidScansAll(d0, dir, bm0);
    }
  }

  /** The entry found is the only one of the last block: zeroing it and releasing that
      block removes it. */
  lemma LoneAsWritten(d0: Disk, bm0: seq<bool>, dir: Inode, name: seq<char>, d: Disk, bm: seq<bool>, lb: nat)
    requires Consistent(d0, dir, bm0) ==>
      && Count(dir) == lb * DIRENTS_PER_BLOCK + 1
      && Removed(d0, dir, d, bm, Count(dir) - 1)
      && BlockReleased(d0, dir, bm0, d, bm, Count(dir) - 1)
    requires Find(Scanned(d0, dir), name) == Some(lb * DIRENTS_PER_BLOCK)
    ensures RemovedAsWritten(d0, bm0, dir, name, d, bm, 0)
  {
    if Consistent(d0, dir, bm0) {
      ValidScansAll(d0, dir, bm0);
      EntryPosition(lb, 0);
    }
  }

  /** The compaction's outcomes, stated for entry j, in slot i of block lb, are those of the
      entry the search finds; the entry is not alone at the head of the last block, which
      the early exit handles. */
  lemma CompactedAsWritten(d0: Disk, bm0: seq<bool>, dir: Inode, name: seq<char>, d: Disk, bm: seq<bool>,
                           r: int, lb: nat, i: nat, j: nat)
    requires i < DIRENTS_PER_BLOCK && j == lb * DIRENTS_PER_BLOCK + i && (j + 1 == Count(dir) ==> i != 0)
    requires Find(Scanned(d0, dir), name) == Some(j)
    requires Consistent(d0, dir, bm0) && (lb < NUM_DIRECT || NoMatchAfter(d0, dir, lb, Count(dir), name)) ==> r == 0
    requires Consistent(d0, dir, bm0) && RemovesSoundly(Count(dir), j) ==> r == 0 && Removed(d0, dir, d, bm, j)
    requires Consistent(d0, dir, bm0) && ClobbersPointerBlock(Count(dir), j) ==>
      var ni := ReadInode(d, dir.ino);
      r == 0 && ni == dir.(size := dir.size - DIRENT_SIZE) && !DirValid(d, ni, bm)
    requires Consistent(d0, dir, bm0) && LeavesStaleEntries(Count(dir), j) && NoMatchAfter(d0, dir, lb, Count(dir), name) ==>
      var ni := ReadInode(d, dir.ino);
      && r == 0 && ni == dir.(size := dir.size - DIRENT_SIZE) && bm == bm0
      && (Distinct(Entries(d0, dir)) ==> Entries(d, ni) != SwapRemove(Entries(d0, dir), j))
    ensures RemovedAsWritten(d0, bm0, dir, name, d, bm, r)
  {
    if Consistent(d0, dir, bm0) {
      ValidScansAll(d0, dir, bm0);
      EntryPosition(lb, i);
      if NamedOnce(Entries(d0, dir), name) {
        OnlyMatchFound(d0, dir, name, lb, i);
      }
    }
  }
}
