/** Placement of inode records in the inode table (readi / writei). */
module InodeStore {
  import opened Layout

  /** The table block that holds inode `ino`. */
  function InodeBlockNo(ino: nat): nat {
    I_START_BLK + ino / INODES_PER_BLOCK
  }

  /** The record slot of inode `ino` inside its table block. */
  function InodeSlot(ino: nat): (s: nat)
    ensures s < INODES_PER_BLOCK
  {
    ino % INODES_PER_BLOCK
  }

  /** What readi copies out: the slot of the inode's table block. No existence check. */
  function ReadInode(d: Disk, ino: nat): Inode {
    InodesOf(Get(d, InodeBlockNo(ino)))[InodeSlot(ino)]
  }

  /** What writei leaves on disk: the table block read, one slot replaced, written back. */
  function WriteInode(d: Disk, ino: nat, v: Inode): Disk {
    var b := InodeBlockNo(ino);
    d[b := InodeBlk(InodesOf(Get(d, b))[InodeSlot(ino) := v])]
  }

  /** Two inode numbers share a table block and slot only when they are equal. */
  lemma {:induction false} PlacementInjective(a: nat, b: nat)
    requires InodeBlockNo(a) == InodeBlockNo(b) && InodeSlot(a) == InodeSlot(b)
    ensures a == b
  {
    assert a == (a / INODES_PER_BLOCK) * INODES_PER_BLOCK + InodeSlot(a);
    assert b == (b / INODES_PER_BLOCK) * INODES_PER_BLOCK + InodeSlot(b);
  }

  /** writei then readi of the same inode gives back the record written. */
  lemma ReadAfterWrite(d: Disk, ino: nat, v: Inode)
    ensures ReadInode(WriteInode(d, ino, v), ino) == v
  {
  }

  /** writei changes no other inode record. */
  lemma {:induction false} WriteLeavesOthers(d: Disk, ino: nat, other: nat, v: Inode)
    requires other != ino
    ensures ReadInode(WriteInode(d, ino, v), other) == ReadInode(d, other)
  {
    if InodeBlockNo(other) == InodeBlockNo(ino) && InodeSlot(other) == InodeSlot(ino) {
      PlacementInjective(other, ino);
    }
  }

  /** writei changes no block but the table block of the inode. */
  lemma WriteLeavesOtherBlocks(d: Disk, ino: nat, v: Inode, b: int)
    requires b != InodeBlockNo(ino)
    ensures Get(WriteInode(d, ino, v), b) == Get(d, b)
  {
  }

  /** The table block of a valid inode number lies below the data region. */
  lemma TableBelowData(ino: nat)
    requires ino < MAX_INUM
    ensures I_START_BLK <= InodeBlockNo(ino) < D_START_BLK
  {
  }

  /** writei keeps every other inode record, stated for all of them at once. */
  lemma WriteKeepsOthers(d: Disk, ino: nat, v: Inode)
    ensures forall o: nat :: o != ino ==> ReadInode(WriteInode(d, ino, v), o) == ReadInode(d, o)
  {
    forall o: nat | o != ino
      ensures ReadInode(WriteInode(d, ino, v), o) == ReadInode(d, o)
    {
      WriteLeavesOthers(d, ino, o, v);
    }
  }

  /** A write to the data region leaves the whole inode table as it was. */
  lemma DataWriteKeepsInodes(d: Disk, b: int, x: Block)
    requires b >= D_START_BLK
    ensures forall o: nat :: o < MAX_INUM ==> ReadInode(d[b := x], o) == ReadInode(d, o)
  {
    forall o: nat | o < MAX_INUM
      ensures ReadInode(d[b := x], o) == ReadInode(d, o)
    {
      TableBelowData(o);
    }
  }
}
