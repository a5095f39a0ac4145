/** On-disk geometry and record types of the file system.
    The header that fixes the record sizes is not part of this model; the values below are
    those of the usual build, and the relations the code relies on are stated as facts. */
module Layout {

  const BLOCK_SIZE: nat := 4096
  const INODE_SIZE: nat := 256        // sizeof(struct inode)
  const DIRENT_SIZE: nat := 214       // sizeof(struct dirent)
  const NAME_CAP: nat := 208          // capacity of a dirent's name buffer, terminator included
  const PTR_SIZE: nat := 4            // sizeof(int), one block number in an indirect block
  const MAX_INUM: nat := 1024
  const MAX_DNUM: nat := 16384
  const MAGIC_NUM: int := 0x5C3A

  const NUM_DIRECT: nat := 16
  const NUM_INDIRECT: nat := 8

  const INODES_PER_BLOCK: nat := 16     // BLOCK_SIZE / INODE_SIZE
  const DIRENTS_PER_BLOCK: nat := 19    // BLOCK_SIZE / DIRENT_SIZE
  const PTRS_PER_BLOCK: nat := 1024     // BLOCK_SIZE / PTR_SIZE

  const SUPERBLOCK_BLK: nat := 0
  const I_BITMAP_BLK: nat := 1
  const D_BITMAP_BLK: nat := 2
  const I_START_BLK: nat := 3
  /** First block of the data region, with the floor division the format code uses. */
  const D_START_BLK: nat := 67         // I_START_BLK + (MAX_INUM * INODE_SIZE) / BLOCK_SIZE

  /** Bits in each in-memory bitmap: one whole block, as loaded at mount time. */
  const BITMAP_BITS: nat := 32768      // BLOCK_SIZE * 8

  /** Logical blocks a directory or file can address: 16 direct, then 8 indirect groups. */
  const MAX_LBLOCKS: nat := 8208       // NUM_DIRECT + NUM_INDIRECT * PTRS_PER_BLOCK
  const MAX_ENTRIES: nat := 155952     // MAX_LBLOCKS * DIRENTS_PER_BLOCK

  /** The sentinel of an unallocated block pointer. */
  const UNALLOCATED: int := -1

  // Mode bits and error numbers as on Linux.
  const S_IFDIR: int := 0x4000
  const S_IFREG: int := 0x8000
  const ENOENT: int := 2
  const EIO: int := 5
  const ENOMEM: int := 12
  const EEXIST: int := 17
  const ENOTEMPTY: int := 39

  newtype byte = x: int | 0 <= x < 256
  type u16 = x: int | 0 <= x < 0x1_0000

  type DirectPtrs = s: seq<int> | |s| == NUM_DIRECT witness seq(NUM_DIRECT, _ => UNALLOCATED)
  type IndirectPtrs = s: seq<int> | |s| == NUM_INDIRECT witness seq(NUM_INDIRECT, _ => UNALLOCATED)

  /** The part of struct stat the code fills in; owner and timestamps are left out. */
  datatype Stat = Stat(ino: int, mode: int, nlink: int, size: int, blksize: int)

  datatype Inode = Inode(
    ino: u16,
    valid: int,
    size: nat,
    itype: int,
    link: int,
    direct: DirectPtrs,
    indirect: IndirectPtrs,
    vstat: Stat)

  /** A directory entry; `name` holds the characters the entry was created with. */
  datatype Dirent = Dirent(ino: u16, valid: int, name: seq<char>, len: int)

  datatype Superblock = Superblock(
    magic: int, maxInum: nat, maxDnum: nat,
    iBitmapBlk: nat, dBitmapBlk: nat, iStartBlk: nat, dStartBlk: nat)

  /** The contents of one block, by the type the code stores in it. */
  datatype Block =
    | Zeroed
    | SuperBlk(sb: Superblock)
    | BitmapBlk(bits: seq<bool>)
    | InodeBlk(inodes: seq<Inode>)
    | DirentBlk(dirents: seq<Dirent>)
    | PtrBlk(ptrs: seq<int>)
    | DataBlk(bytes: seq<byte>)

  /** The disk image: block number to contents; a missing block reads as zeroes. */
  type Disk = map<int, Block>

  const ZERO_STAT: Stat := Stat(0, 0, 0, 0, 0)
  const ZERO_INODE: Inode :=
    Inode(0, 0, 0, 0, 0, seq(NUM_DIRECT, _ => 0), seq(NUM_INDIRECT, _ => 0), ZERO_STAT)
  const ZERO_DIRENT: Dirent := Dirent(0, 0, [], 0)

  datatype Option<T> = None | Some(value: T)

  function Get(d: Disk, b: int): Block {
    if b in d then d[b] else Zeroed
  }

  // Typed views of a block: a block of another type, or of the wrong length, reads as zeroes.

  function InodesOf(b: Block): (s: seq<Inode>)
    ensures |s| == INODES_PER_BLOCK
  {
    if b.InodeBlk? && |b.inodes| == INODES_PER_BLOCK then b.inodes
    else seq(INODES_PER_BLOCK, _ => ZERO_INODE)
  }

  function DirentsOf(b: Block): (s: seq<Dirent>)
    ensures |s| == DIRENTS_PER_BLOCK
  {
    if b.DirentBlk? && |b.dirents| == DIRENTS_PER_BLOCK then b.dirents
    else seq(DIRENTS_PER_BLOCK, _ => ZERO_DIRENT)
  }

  function PtrsOf(b: Block): (s: seq<int>)
    ensures |s| == PTRS_PER_BLOCK
  {
    if b.PtrBlk? && |b.ptrs| == PTRS_PER_BLOCK then b.ptrs
    else seq(PTRS_PER_BLOCK, _ => 0)
  }

  function BytesOf(b: Block): (s: seq<byte>)
    ensures |s| == BLOCK_SIZE
  {
    if b.DataBlk? && |b.bytes| == BLOCK_SIZE then b.bytes
    else seq(BLOCK_SIZE, _ => 0)
  }

  function Min(a: int, b: int): int {
    if a < b then a else b
  }

  /** The derived constants above are the values the code computes from the record sizes,
      and the inode table ends where the data region begins. */
  lemma Geometry()
    ensures INODES_PER_BLOCK == BLOCK_SIZE / INODE_SIZE
    ensures DIRENTS_PER_BLOCK == BLOCK_SIZE / DIRENT_SIZE
    ensures PTRS_PER_BLOCK == BLOCK_SIZE / PTR_SIZE
    ensures D_START_BLK == I_START_BLK + (MAX_INUM * INODE_SIZE) / BLOCK_SIZE
    ensures BITMAP_BITS == BLOCK_SIZE * 8
    ensures MAX_LBLOCKS == NUM_DIRECT + NUM_INDIRECT * PTRS_PER_BLOCK
    ensures MAX_ENTRIES == MAX_LBLOCKS * DIRENTS_PER_BLOCK
    ensures I_START_BLK + (MAX_INUM - 1) / INODES_PER_BLOCK < D_START_BLK
    ensures MAX_INUM < BITMAP_BITS && MAX_DNUM - D_START_BLK < BITMAP_BITS
  {
  }

  /** Entry numbering: entry lb * 19 + slot sits in block lb at that slot. */
  lemma EntryPosition(lb: nat, slot: nat)
    requires slot < DIRENTS_PER_BLOCK
    ensures (lb * DIRENTS_PER_BLOCK + slot) / DIRENTS_PER_BLOCK == lb
    ensures (lb * DIRENTS_PER_BLOCK + slot) % DIRENTS_PER_BLOCK == slot
  {
  }
}
