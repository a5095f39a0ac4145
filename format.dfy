/** What rufs_mkfs puts on a new disk, and the inode records that mkfs, mkdir and create
    initialise. */
module Format {
  import opened Layout
  import opened InodeStore
  import opened Bitmap
  import opened Directory
  import opened DirectoryFrame
  import opened Paths
  import opened Resolution

  /** The file-type bits of a mode_t word. */
  const S_IFMT_BITS: bv32 := 0xF000
  const S_IFDIR_BITS: bv32 := 0x4000
  const S_IFREG_BITS: bv32 := 0x8000
  /** The permission bits: octal 0777. */
  const PERM_BITS: bv32 := 0x1FF

  /** The type word mkdir and create store: `kind | (mode & 0777)`. */
  function TypeWithPerm(kind: bv32, mode: bv32): bv32 {
    kind | (mode & PERM_BITS)
  }

  /** The permission bits of the requested mode never reach the type bits: the stored word
      still says directory or regular file, and carries exactly the requested permissions. */
  lemma TypeKeepsKind(kind: bv32, mode: bv32)
    requires kind == S_IFDIR_BITS || kind == S_IFREG_BITS
    ensures TypeWithPerm(kind, mode) & S_IFMT_BITS == kind
    ensures TypeWithPerm(kind, mode) & PERM_BITS == mode & PERM_BITS
  {
  }

  /** A new inode record: valid, empty, no blocks, and the stat fields the code fills in. */
  function NewInode(ino: u16, itype: int, link: int, mode: int): Inode {
    Inode(ino, 1, 0, itype, link, seq(NUM_DIRECT, _ => UNALLOCATED), seq(NUM_INDIRECT, _ => UNALLOCATED),
      Stat(ino, mode, link, 0, BLOCK_SIZE))
  }

  /** The root directory mkfs creates: type S_IFDIR, mode S_IFDIR | 0755, two links. */
  const ROOT: Inode := NewInode(0, S_IFDIR, 2, (S_IFDIR_BITS | 0x1ED) as int)

  /** The superblock mkfs writes; the data region starts after MAX_INUM inode records. */
  const FORMAT_SUPERBLOCK: Superblock := Superblock(MAGIC_NUM, MAX_INUM, MAX_DNUM,
    I_BITMAP_BLK, D_BITMAP_BLK, I_START_BLK, I_START_BLK + (MAX_INUM * INODE_SIZE) / BLOCK_SIZE)

  /** The disk after mkfs: the superblock, both bitmap blocks cleared (they are written
      before the root's inode number is claimed), and the first table block holding the
      root record with the other fifteen slots zeroed. Every other block reads as zeroes. */
  function FormattedDisk(): Disk {
    map[SUPERBLOCK_BLK := SuperBlk(FORMAT_SUPERBLOCK),
        I_BITMAP_BLK := BitmapBlk(seq(BITMAP_BITS, _ => false)),
        D_BITMAP_BLK := BitmapBlk(seq(BITMAP_BITS, _ => false)),
        I_START_BLK := InodeBlk([ROOT] + seq(INODES_PER_BLOCK - 1, _ => ZERO_INODE))]
  }

  /** A formatted disk holds one empty, consistent root directory as inode 0, no other valid
      inode, and a superblock whose data region starts where the model's does; "/" resolves
      to the root and every longer path fails to resolve. */
  lemma {:induction false} Formatted()
    ensures ReadInode(FormattedDisk(), 0) == ROOT
    ensures forall o: nat :: 0 < o < MAX_INUM ==> ReadInode(FormattedDisk(), o).valid == 0
    ensures forall bm :: Consistent(FormattedDisk(), ROOT, bm)
    ensures Entries(FormattedDisk(), ROOT) == []
    ensures forall name :: Lookup(FormattedDisk(), 0, name).None?
    ensures forall path :: |path| >= 1 ==>
      ResolvePath(FormattedDisk(), path, 0) == if |path| == 1 then Some(ROOT) else None
    ensures FORMAT_SUPERBLOCK.dStartBlk == D_START_BLK
  {
    var d := FormattedDisk();
    assert ReadInode(d, 0) == ROOT;
    forall o: nat | 0 < o < MAX_INUM
      ensures ReadInode(d, o).valid == 0
    {
      if InodeBlockNo(o) == I_START_BLK {
        assert InodeSlot(o) != 0;
      } else {
        TableBelowData(o);
      }
    }
    assert ScanLimit(ROOT) == 0;
    forall name
      ensures Lookup(d, 0, name).None?
    {
      assert Scanned(d, ROOT) == [];
    }
    forall path | |path| >= 1
      ensures ResolvePath(d, path, 0) == if |path| == 1 then Some(ROOT) else None
    {
      if |path| > 1 {
        assert Lookup(d, 0, Components(path)[0]).None?;
      }
    }
  }

  // rufs_mkfs sizes the in-memory bitmaps it allocates by the number of inode records and
  // data blocks, in whole bytes, while the allocators scan up to their bounds.

  /** The bytes mkfs allocates for the inode bitmap: one bit per record of the table. */
  const MKFS_INODE_BITMAP_BYTES: nat := ((BLOCK_SIZE / INODE_SIZE) * ((MAX_INUM * INODE_SIZE) / BLOCK_SIZE)) / 8
  /** The bytes mkfs allocates for the data bitmap: the blocks past the table and the three
      metadata blocks, rounded down to whole bytes. */
  const MKFS_DATA_BITMAP_BYTES: nat := (MAX_DNUM - (MAX_INUM * INODE_SIZE) / BLOCK_SIZE - 3) / 8

  /** Once every bit mkfs allocated is set, get_avail_ino and get_avail_blkno still probe one
      more bit: the scans run past the end of the bitmaps mkfs created. */
  lemma MkfsBitmapsOverrun(ibits: seq<bool>, dbits: seq<bool>)
    requires |ibits| > MAX_INUM && forall j :: 0 <= j < MKFS_INODE_BITMAP_BYTES * 8 ==> ibits[j]
    requires |dbits| > MAX_DNUM - D_START_BLK && forall j :: 0 <= j < MKFS_DATA_BITMAP_BYTES * 8 ==> dbits[j]
    ensures MKFS_INODE_BITMAP_BYTES * 8 == MAX_INUM
    ensures ScanStop(ibits, MAX_INUM, 0) >= MKFS_INODE_BITMAP_BYTES * 8
    ensures MKFS_DATA_BITMAP_BYTES * 8 < MAX_DNUM - D_START_BLK
    ensures ScanStop(dbits, MAX_DNUM - D_START_BLK, 0) >= MKFS_DATA_BITMAP_BYTES * 8
  {
    assert MKFS_INODE_BITMAP_BYTES == 128 && MKFS_DATA_BITMAP_BYTES == 2039;
  }
}
