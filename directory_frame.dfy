/** How the individual steps of dir_add and dir_remove act on a consistent directory: a write
    to a block the directory does not own, a write to one entry slot, attaching and dropping
    pointers, growing and shrinking the entry count, and setting or clearing bitmap bits. */
module DirectoryFrame {
  import opened Layout
  import opened InodeStore
  import opened Directory

  /** The pointer position that holds logical block lb. */
  function RefPos(lb: nat): (p: nat)
    requires lb < MAX_LBLOCKS
    ensures p < MAX_REFS
  {
    if lb < NUM_DIRECT then lb else lb + NUM_INDIRECT
  }

  lemma RefPosIsPtrAt(d: Disk, inode: Inode, lb: nat)
    requires lb < MAX_LBLOCKS
    ensures Ref(d, inode, RefPos(lb)) == PtrAt(d, inode, lb)
  {
  }

  /** Every used block, and the pointer block of its group, is an owned block at a pointer
      position of its own, distinct from all the other positions. */
  lemma {:induction false} UsedBlock(d: Disk, inode: Inode, bm: seq<bool>, lb: nat)
    requires DirValid(d, inode, bm) && lb < BlocksFor(Count(inode))
    ensures lb < MAX_LBLOCKS && RefPos(lb) < NumRefs(inode)
    ensures PtrAt(d, inode, lb) != UNALLOCATED && Owned(bm, PtrAt(d, inode, lb))
    ensures forall p :: 0 <= p < NumRefs(inode) && p != RefPos(lb) ==>
      Ref(d, inode, p) != PtrAt(d, inode, lb)
    ensures lb >= NUM_DIRECT ==> inode.indirect[GroupOf(lb)] != UNALLOCATED
  {
    BlocksCover(Count(inode));
    assert lb < MAX_LBLOCKS;
    RefPosIsPtrAt(d, inode, lb);
    RefDistinct(d, inode, bm, RefPos(lb));
  }

  lemma {:induction false} RefDistinct(d: Disk, inode: Inode, bm: seq<bool>, pos: nat)
    requires DirValid(d, inode, bm) && pos < NumRefs(inode) && Ref(d, inode, pos) != UNALLOCATED
    ensures Owned(bm, Ref(d, inode, pos))
    ensures forall p :: 0 <= p < NumRefs(inode) && p != pos ==> Ref(d, inode, p) != Ref(d, inode, pos)
  {
    forall p | 0 <= p < NumRefs(inode) && p != pos
      ensures Ref(d, inode, p) != Ref(d, inode, pos)
    {
      if p < pos && Ref(d, inode, p) != UNALLOCATED {
        assert Ref(d, inode, p) != Ref(d, inode, pos);
      }
    }
  }

  /** The pointer block of a group in use is owned and appears at no other position. */
  lemma {:induction false} UsedGroup(d: Disk, inode: Inode, bm: seq<bool>, lb: nat)
    requires DirValid(d, inode, bm) && NUM_DIRECT <= lb < BlocksFor(Count(inode))
    ensures lb < MAX_LBLOCKS && inode.indirect[GroupOf(lb)] != UNALLOCATED
    ensures Owned(bm, inode.indirect[GroupOf(lb)])
    ensures forall p :: 0 <= p < NumRefs(inode) && p != NUM_DIRECT + GroupOf(lb) ==>
      Ref(d, inode, p) != inode.indirect[GroupOf(lb)]
  {
    BlocksCover(Count(inode));
    assert Ref(d, inode, NUM_DIRECT + GroupOf(lb)) == inode.indirect[GroupOf(lb)];
    RefDistinct(d, inode, bm, NUM_DIRECT + GroupOf(lb));
  }

  /** The direct pointers of used blocks, and the pointer blocks of used groups, are allocated. */
  lemma {:induction false} UsedPointers(d: Disk, inode: Inode, bm: seq<bool>)
    requires DirValid(d, inode, bm)
    ensures forall l :: 0 <= l < NUM_DIRECT && l < BlocksFor(Count(inode)) ==> inode.direct[l] != UNALLOCATED
    ensures forall g :: 0 <= g < NUM_INDIRECT && NUM_DIRECT + g * PTRS_PER_BLOCK < BlocksFor(Count(inode)) ==>
      inode.indirect[g] != UNALLOCATED
  {
    forall l | 0 <= l < NUM_DIRECT && l < BlocksFor(Count(inode))
      ensures inode.direct[l] != UNALLOCATED
    {
      assert PtrAt(d, inode, l) == inode.direct[l];
    }
    forall g | 0 <= g < NUM_INDIRECT && NUM_DIRECT + g * PTRS_PER_BLOCK < BlocksFor(Count(inode))
      ensures inode.indirect[g] != UNALLOCATED
    {
      assert GroupOf(NUM_DIRECT + g * PTRS_PER_BLOCK) == g;
    }
  }

  /** Setting more bits keeps a directory consistent. */
  lemma {:induction false} GrowBitmap(d: Disk, inode: Inode, bm: seq<bool>, bm2: seq<bool>)
    requires DirValid(d, inode, bm)
    requires |bm2| == |bm| && forall i :: 0 <= i < |bm| && bm[i] ==> bm2[i]
    ensures DirValid(d, inode, bm2)
  {
    forall p | 0 <= p < NumRefs(inode) && Ref(d, inode, p) != UNALLOCATED
      ensures Owned(bm2, Ref(d, inode, p))
    {
      assert Owned(bm, Ref(d, inode, p));
    }
  }

  /** Clearing the bit of a block the directory does not point to keeps it consistent. */
  lemma {:induction false} ClearUnreferenced(d: Disk, inode: Inode, bm: seq<bool>, b: int)
    requires DirValid(d, inode, bm) && D_START_BLK <= b && b - D_START_BLK < |bm|
    requires forall p :: 0 <= p < NumRefs(inode) ==> Ref(d, inode, p) != b
    ensures DirValid(d, inode, bm[b - D_START_BLK := false])
  {
    var bm2 := bm[b - D_START_BLK := false];
    forall p | 0 <= p < NumRefs(inode) && Ref(d, inode, p) != UNALLOCATED
      ensures Owned(bm2, Ref(d, inode, p))
    {
      assert Owned(bm, Ref(d, inode, p));
    }
  }

  /** A block the directory does not own is not one of its live pointers. */
  lemma {:induction false} UnownedIsUnreferenced(d: Disk, inode: Inode, bm: seq<bool>, b: int)
    requires DirValid(d, inode, bm) && !Owned(bm, b) && b != UNALLOCATED
    ensures forall p :: 0 <= p < NumRefs(inode) ==> Ref(d, inode, p) != b
  {
    forall p | 0 <= p < NumRefs(inode)
      ensures Ref(d, inode, p) != b
    {
      if Ref(d, inode, p) != UNALLOCATED {
        assert Owned(bm, Ref(d, inode, p));
      }
    }
  }

  /** Two disks agree on every entry and pointer position once they agree on the pointers
      of the used blocks and on every used block. */
  lemma {:induction false} SameView(d: Disk, d2: Disk, inode: Inode, bm: seq<bool>)
    requires DirValid(d, inode, bm)
    requires forall lb :: 0 <= lb < BlocksFor(Count(inode)) ==> PtrAt(d2, inode, lb) == PtrAt(d, inode, lb)
    requires forall lb :: 0 <= lb < BlocksFor(Count(inode)) ==>
      Get(d2, PtrAt(d, inode, lb)) == Get(d, PtrAt(d, inode, lb))
    ensures DirValid(d2, inode, bm) && Entries(d2, inode) == Entries(d, inode)
  {
    var nb := BlocksFor(Count(inode));
    BlocksCover(Count(inode));
    forall p | 0 <= p < NumRefs(inode)
      ensures Ref(d2, inode, p) == Ref(d, inode, p)
    {
      if p >= NUM_DIRECT + NUM_INDIRECT {
        assert p - NUM_INDIRECT < nb;
      }
    }
    forall t | 0 <= t < Min(Count(inode), MAX_ENTRIES)
      ensures EntryAt(d2, inode, t) == EntryAt(d, inode, t)
    {
      assert t / DIRENTS_PER_BLOCK < nb;
    }
  }

  /** A write to a block the directory does not own changes nothing it sees. */
  lemma {:induction false} UnownedWrite(d: Disk, inode: Inode, bm: seq<bool>, b: int, x: Block)
    requires DirValid(d, inode, bm) && !Owned(bm, b)
    ensures DirValid(d[b := x], inode, bm) && Entries(d[b := x], inode) == Entries(d, inode)
    ensures forall lb :: 0 <= lb < BlocksFor(Count(inode)) ==> PtrAt(d[b := x], inode, lb) == PtrAt(d, inode, lb)
  {
    var d2 := d[b := x];
    forall lb | 0 <= lb < BlocksFor(Count(inode))
      ensures PtrAt(d2, inode, lb) == PtrAt(d, inode, lb)
      ensures Get(d2, PtrAt(d, inode, lb)) == Get(d, PtrAt(d, inode, lb))
    {
      UsedBlock(d, inode, bm, lb);
      if lb >= NUM_DIRECT {
        UsedGroup(d, inode, bm, lb);
      }
    }
    SameView(d, d2, inode, bm);
  }

  /** writei of an inode in the table changes nothing a directory sees. */
  lemma {:induction false} InodeWriteKeeps(d: Disk, inode: Inode, bm: seq<bool>, ino: nat, v: Inode)
    requires DirValid(d, inode, bm) && ino < MAX_INUM
    ensures DirValid(WriteInode(d, ino, v), inode, bm)
    ensures Entries(WriteInode(d, ino, v), inode) == Entries(d, inode)
    ensures forall l :: 0 <= l < MAX_LBLOCKS ==> PtrAt(WriteInode(d, ino, v), inode, l) == PtrAt(d, inode, l)
  {
    TableBelowData(ino);
    var b := InodeBlockNo(ino);
    var x := InodeBlk(InodesOf(Get(d, b))[InodeSlot(ino) := v]);
    UnownedWrite(d, inode, bm, b, x);
    forall g | 0 <= g < NUM_INDIRECT
      ensures inode.indirect[g] != b
    {
      assert Ref(d, inode, NUM_DIRECT + g) == inode.indirect[g];
    }
    PointersKept(d, inode, b, x);
  }

  /** A write to a block that is not a pointer block of the directory leaves every
      pointer it reads in place. */
  lemma {:induction false} PointersKept(d: Disk, inode: Inode, b: int, x: Block)
    requires forall g :: 0 <= g < NUM_INDIRECT ==> inode.indirect[g] != b
    ensures forall l :: 0 <= l < MAX_LBLOCKS ==> PtrAt(d[b := x], inode, l) == PtrAt(d, inode, l)
  {
  }

  /** Consistency depends on the disk only through the pointers. */
  lemma {:induction false} SamePointers(d: Disk, d2: Disk, inode: Inode, bm: seq<bool>)
    requires DirValid(d, inode, bm)
    requires forall l :: 0 <= l < MAX_LBLOCKS ==> PtrAt(d2, inode, l) == PtrAt(d, inode, l)
    ensures DirValid(d2, inode, bm)
  {
    assert forall p :: 0 <= p < NumRefs(inode) ==> Ref(d2, inode, p) == Ref(d, inode, p);
  }

  lemma RefPosBound(inode: Inode, lb: nat)
    requires Count(inode) <= MAX_ENTRIES && lb < BlocksFor(Count(inode))
    ensures lb < MAX_LBLOCKS && RefPos(lb) < NumRefs(inode)
  {
    BlocksCover(Count(inode));
  }

  /** Writing one entry into the block of logical block lb, when that block is owned and
      named at no other position, changes that entry only. */
  lemma {:induction false} SlotWrite(d: Disk, inode: Inode, bm: seq<bool>, lb: nat, slot: nat,
                                     e: Dirent, b: int, d2: Disk)
    requires DirValid(d, inode, bm) && lb < MAX_LBLOCKS && slot < DIRENTS_PER_BLOCK
    requires b == PtrAt(d, inode, lb) && Owned(bm, b)
    requires forall p :: 0 <= p < NumRefs(inode) && p != RefPos(lb) ==> Ref(d, inode, p) != b
    requires d2 == d[b := DirentBlk(DirentsOf(Get(d, b))[slot := e])]
    ensures DirValid(d2, inode, bm)
    ensures forall l :: 0 <= l < MAX_LBLOCKS ==> PtrAt(d2, inode, l) == PtrAt(d, inode, l)
    ensures forall t :: 0 <= t < Min(Count(inode), MAX_ENTRIES) && t != lb * DIRENTS_PER_BLOCK + slot ==>
      EntryAt(d2, inode, t) == EntryAt(d, inode, t)
    ensures EntryAt(d2, inode, lb * DIRENTS_PER_BLOCK + slot) == e
  {
    assert forall g :: 0 <= g < NUM_INDIRECT ==> Ref(d, inode, NUM_DIRECT + g) == inode.indirect[g];
    PointersKept(d, inode, b, DirentBlk(DirentsOf(Get(d, b))[slot := e]));
    SamePointers(d, d2, inode, bm);
    forall l | 0 <= l < BlocksFor(Count(inode)) && l != lb
      ensures PtrAt(d, inode, l) != b
    {
      RefPosBound(inode, l);
      RefPosIsPtrAt(d, inode, l);
    }
    SlotWriteEntries(d, inode, lb, slot, e, b, d2);
  }

  lemma {:induction false} SlotWriteEntries(d: Disk, inode: Inode, lb: nat, slot: nat,
                                            e: Dirent, b: int, d2: Disk)
    requires lb < MAX_LBLOCKS && slot < DIRENTS_PER_BLOCK && Count(inode) <= MAX_ENTRIES
    requires b == PtrAt(d, inode, lb)
    requires d2 == d[b := DirentBlk(DirentsOf(Get(d, b))[slot := e])]
    requires forall l :: 0 <= l < MAX_LBLOCKS ==> PtrAt(d2, inode, l) == PtrAt(d, inode, l)
    requires forall l :: 0 <= l < BlocksFor(Count(inode)) && l != lb ==> PtrAt(d, inode, l) != b
    ensures forall t :: 0 <= t < Min(Count(inode), MAX_ENTRIES) && t != lb * DIRENTS_PER_BLOCK + slot ==>
      EntryAt(d2, inode, t) == EntryAt(d, inode, t)
    ensures EntryAt(d2, inode, lb * DIRENTS_PER_BLOCK + slot) == e
  {
    BlocksCover(Count(inode));
    forall t | 0 <= t < Min(Count(inode), MAX_ENTRIES) && t != lb * DIRENTS_PER_BLOCK + slot
      ensures EntryAt(d2, inode, t) == EntryAt(d, inode, t)
    {
      var l := t / DIRENTS_PER_BLOCK;
      if l == lb {
        assert t % DIRENTS_PER_BLOCK != slot;
      }
    }
    EntryPosition(lb, slot);
    var t := lb * DIRENTS_PER_BLOCK + slot;
    assert t < MAX_ENTRIES;
    assert PtrAt(d2, inode, lb) == b;
    var s := DirentsOf(Get(d, b))[slot := e];
    assert Get(d2, b) == DirentBlk(s);
    assert DirentsOf(Get(d2, b)) == s;
  }

  /** Entries and pointers depend on the inode only through its pointer fields. */
  lemma SamePointerFields(d: Disk, inode: Inode, ni: Inode)
    requires ni.direct == inode.direct && ni.indirect == inode.indirect
    ensures forall l :: 0 <= l < MAX_LBLOCKS ==> PtrAt(d, ni, l) == PtrAt(d, inode, l)
    ensures forall t :: 0 <= t < MAX_ENTRIES ==> EntryAt(d, ni, t) == EntryAt(d, inode, t)
    ensures forall p :: 0 <= p < MAX_REFS ==> Ref(d, ni, p) == Ref(d, inode, p)
  {
  }

  lemma NextBlock(n: nat)
    ensures BlocksFor(n + 1) == n / DIRENTS_PER_BLOCK + 1
    ensures n / DIRENTS_PER_BLOCK <= BlocksFor(n) <= BlocksFor(n + 1)
    ensures BlocksFor(n) == BlocksFor(n + 1) || BlocksFor(n) == n / DIRENTS_PER_BLOCK
  {
  }

  /** Counting one more entry, whose block is allocated, owned and named nowhere else, keeps
      the directory consistent and appends that entry. */
  lemma {:induction false} GrowCount(d: Disk, inode: Inode, bm: seq<bool>, ni: Inode)
    requires DirValid(d, inode, bm) && Count(inode) < MAX_ENTRIES
    requires ni.size == inode.size + DIRENT_SIZE && ni.direct == inode.direct && ni.indirect == inode.indirect
    requires PtrAt(d, inode, Count(inode) / DIRENTS_PER_BLOCK) != UNALLOCATED
    requires Owned(bm, PtrAt(d, inode, Count(inode) / DIRENTS_PER_BLOCK))
    requires forall p :: 0 <= p < NumRefs(inode) && p != RefPos(Count(inode) / DIRENTS_PER_BLOCK) ==>
      Ref(d, inode, p) != PtrAt(d, inode, Count(inode) / DIRENTS_PER_BLOCK)
    requires Count(inode) / DIRENTS_PER_BLOCK >= NUM_DIRECT ==>
      inode.indirect[GroupOf(Count(inode) / DIRENTS_PER_BLOCK)] != UNALLOCATED
    ensures DirValid(d, ni, bm)
    ensures Entries(d, ni) == Entries(d, inode) + [EntryAt(d, inode, Count(inode))]
  {
    var n := Count(inode);
    assert Count(ni) == n + 1;
    NextBlock(n);
    SamePointerFields(d, inode, ni);
    GrowValid(d, inode, bm, ni);
    assert Entries(d, ni) == Entries(d, inode) + [EntryAt(d, inode, n)];
  }

  lemma {:induction false} GrowValid(d: Disk, inode: Inode, bm: seq<bool>, ni: Inode)
    requires DirValid(d, inode, bm) && Count(inode) < MAX_ENTRIES
    requires ni.size == inode.size + DIRENT_SIZE && ni.direct == inode.direct && ni.indirect == inode.indirect
    requires PtrAt(d, inode, Count(inode) / DIRENTS_PER_BLOCK) != UNALLOCATED
    requires Owned(bm, PtrAt(d, inode, Count(inode) / DIRENTS_PER_BLOCK))
    requires forall p :: 0 <= p < NumRefs(inode) && p != RefPos(Count(inode) / DIRENTS_PER_BLOCK) ==>
      Ref(d, inode, p) != PtrAt(d, inode, Count(inode) / DIRENTS_PER_BLOCK)
    requires Count(inode) / DIRENTS_PER_BLOCK >= NUM_DIRECT ==>
      inode.indirect[GroupOf(Count(inode) / DIRENTS_PER_BLOCK)] != UNALLOCATED
    ensures DirValid(d, ni, bm)
  {
    var n := Count(inode);
    var lbn := n / DIRENTS_PER_BLOCK;
    var b := PtrAt(d, inode, lbn);
    var nb := BlocksFor(n);
    assert Count(ni) == n + 1;
    NextBlock(n);
    var nb2 := BlocksFor(n + 1);
    assert nb2 == nb || (nb2 == nb + 1 && lbn == nb);
    SamePointerFields(d, inode, ni);
    RefPosIsPtrAt(d, inode, lbn);
    var r := NumRefs(inode);
    var r2 := NumRefs(ni);
    assert r2 == r || (r2 == r + 1 && RefPos(lbn) == r);
    assert Ref(d, ni, RefPos(lbn)) == b;
    forall l | 0 <= l < nb2
      ensures PtrAt(d, ni, l) != UNALLOCATED
      ensures l >= NUM_DIRECT ==> ni.indirect[GroupOf(l)] != UNALLOCATED
    {
      if l != lbn {
        assert l < nb;
      }
    }
    forall p | 0 <= p < r2 && Ref(d, ni, p) != UNALLOCATED
      ensures Owned(bm, Ref(d, ni, p))
    {
      if p != RefPos(lbn) {
        assert p < r;
      }
    }
    forall p, q | 0 <= p < q < r2 && Ref(d, ni, p) != UNALLOCATED
      ensures Ref(d, ni, p) != Ref(d, ni, q)
    {
      if q == RefPos(lbn) {
        assert Ref(d, inode, p) != b;
      } else if p == RefPos(lbn) {
        assert q < r;
        assert Ref(d, inode, q) != b;
      } else {
        assert q < r;
      }
    }
  }

  /** Counting one entry less keeps the directory consistent and drops the last entry. */
  lemma {:induction false} ShrinkCount(d: Disk, inode: Inode, bm: seq<bool>, ni: Inode)
    requires DirValid(d, inode, bm) && Count(inode) >= 1
    requires ni.size + DIRENT_SIZE == inode.size && ni.direct == inode.direct && ni.indirect == inode.indirect
    ensures DirValid(d, ni, bm)
    ensures Count(ni) == Count(inode) - 1 && NumRefs(ni) <= NumRefs(inode)
    ensures Entries(d, ni) == Entries(d, inode)[..Count(inode) - 1]
  {
    assert Count(ni) == Count(inode) - 1;
    NextBlock(Count(ni));
    SamePointerFields(d, inode, ni);
  }

  /** Forgetting a direct pointer past the used blocks keeps the directory consistent; the
      block it named is then named nowhere. */
  lemma {:induction false} DropDirect(d: Disk, inode: Inode, bm: seq<bool>, l: nat, ni: Inode)
    requires DirValid(d, inode, bm) && BlocksFor(Count(inode)) <= l < NUM_DIRECT
    requires ni == inode.(direct := inode.direct[l := UNALLOCATED])
    ensures DirValid(d, ni, bm) && Entries(d, ni) == Entries(d, inode)
    ensures inode.direct[l] != UNALLOCATED ==>
      forall p :: 0 <= p < NumRefs(ni) ==> Ref(d, ni, p) != inode.direct[l]
  {
    assert NumRefs(ni) == NumRefs(inode);
    assert forall lb :: 0 <= lb < MAX_LBLOCKS && lb != l ==> PtrAt(d, ni, lb) == PtrAt(d, inode, lb);
    assert forall p :: 0 <= p < MAX_REFS && p != l ==> Ref(d, ni, p) == Ref(d, inode, p);
    if inode.direct[l] != UNALLOCATED {
      assert Ref(d, inode, l) == inode.direct[l];
      RefDistinct(d, inode, bm, l);
    }
    BlocksCover(Count(inode));
    assert Entries(d, ni) == Entries(d, inode);
  }

  /** Forgetting the pointer block of an unused group keeps the directory consistent; the
      block it named is then named nowhere. */
  lemma {:induction false} DropIndirect(d: Disk, inode: Inode, bm: seq<bool>, g: nat, ni: Inode)
    requires DirValid(d, inode, bm) && g < NUM_INDIRECT
    requires BlocksFor(Count(inode)) <= NUM_DIRECT + g * PTRS_PER_BLOCK
    requires ni == inode.(indirect := inode.indirect[g := UNALLOCATED])
    ensures DirValid(d, ni, bm) && Entries(d, ni) == Entries(d, inode)
    ensures inode.indirect[g] != UNALLOCATED ==>
      forall p :: 0 <= p < NumRefs(ni) ==> Ref(d, ni, p) != inode.indirect[g]
  {
    var nb := BlocksFor(Count(inode));
    assert NumRefs(ni) == NumRefs(inode);
    assert forall lb :: 0 <= lb < nb ==> PtrAt(d, ni, lb) == PtrAt(d, inode, lb);
    assert forall p :: 0 <= p < NumRefs(inode) && p != NUM_DIRECT + g ==> Ref(d, ni, p) == Ref(d, inode, p);
    if inode.indirect[g] != UNALLOCATED {
      assert Ref(d, inode, NUM_DIRECT + g) == inode.indirect[g];
      RefDistinct(d, inode, bm, NUM_DIRECT + g);
    }
    BlocksCover(Count(inode));
    assert Entries(d, ni) == Entries(d, inode);
  }

  /** Pointing an unallocated direct pointer at a newly claimed block keeps the directory
      consistent; the block is owned and named nowhere else. */
  lemma {:induction false} AttachDirect(d: Disk, inode: Inode, bm: seq<bool>, l: nat, blk: int,
                                        ni: Inode, bm2: seq<bool>)
    requires DirValid(d, inode, bm) && l < NUM_DIRECT && inode.direct[l] == UNALLOCATED
    requires D_START_BLK <= blk < MAX_DNUM && blk - D_START_BLK < |bm| && !bm[blk - D_START_BLK]
    requires bm2 == bm[blk - D_START_BLK := true]
    requires ni == inode.(direct := inode.direct[l := blk])
    ensures DirValid(d, ni, bm2) && Entries(d, ni) == Entries(d, inode)
    ensures PtrAt(d, ni, l) == blk && Owned(bm2, blk)
    ensures forall p :: 0 <= p < NumRefs(ni) && p != l ==> Ref(d, ni, p) != blk
  {
    var nb := BlocksFor(Count(inode));
    UsedPointers(d, inode, bm);
    UnownedIsUnreferenced(d, inode, bm, blk);
    assert forall p :: 0 <= p < MAX_REFS && p != l ==> Ref(d, ni, p) == Ref(d, inode, p);
    assert forall lb :: 0 <= lb < MAX_LBLOCKS && lb != l ==> PtrAt(d, ni, lb) == PtrAt(d, inode, lb);
    forall p | 0 <= p < NumRefs(ni) && Ref(d, ni, p) != UNALLOCATED
      ensures Owned(bm2, Ref(d, ni, p))
    {
      if p != l {
        assert Owned(bm, Ref(d, inode, p));
      }
    }
    BlocksCover(Count(inode));
    assert Entries(d, ni) == Entries(d, inode);
  }

  /** A new pointer block, all pointers unallocated, for a group not in use: the directory
      stays consistent and sees the same entries. */
  lemma {:induction false} AttachPointerBlock(d: Disk, inode: Inode, bm: seq<bool>, g: nat, pb: int,
                                              d2: Disk, ni: Inode, bm2: seq<bool>)
    requires DirValid(d, inode, bm) && g < NUM_INDIRECT && inode.indirect[g] == UNALLOCATED
    requires D_START_BLK <= pb < MAX_DNUM && pb - D_START_BLK < |bm| && !bm[pb - D_START_BLK]
    requires bm2 == bm[pb - D_START_BLK := true]
    requires d2 == d[pb := PtrBlk(seq(PTRS_PER_BLOCK, _ => UNALLOCATED))]
    requires ni == inode.(indirect := inode.indirect[g := pb])
    ensures DirValid(d2, ni, bm2) && Entries(d2, ni) == Entries(d, inode)
  {
    var nb := BlocksFor(Count(inode));
    UsedPointers(d, inode, bm);
    UnownedIsUnreferenced(d, inode, bm, pb);
    UnownedWrite(d, inode, bm, pb, PtrBlk(seq(PTRS_PER_BLOCK, _ => UNALLOCATED)));
    assert forall lb :: NUM_DIRECT <= lb < nb ==> GroupOf(lb) != g;
    assert forall lb :: 0 <= lb < nb ==> PtrAt(d2, ni, lb) == PtrAt(d2, inode, lb);
    assert forall p :: 0 <= p < NumRefs(inode) && p != NUM_DIRECT + g ==> Ref(d2, ni, p) == Ref(d2, inode, p);
    assert forall p :: 0 <= p < NumRefs(inode) ==> Ref(d2, inode, p) == Ref(d, inode, p);
    forall p | 0 <= p < NumRefs(ni) && Ref(d2, ni, p) != UNALLOCATED
      ensures Owned(bm2, Ref(d2, ni, p))
    {
      if p != NUM_DIRECT + g {
        assert Owned(bm, Ref(d, inode, p));
      }
    }
    BlocksCover(Count(inode));
    assert Entries(d2, ni) == Entries(d2, inode);
  }

  /** Setting the pointer of the first block past the used ones, in a group whose pointer
      block is allocated: the directory stays consistent, sees the same entries, and that
      logical block now names the new block. */
  lemma {:induction false} PointerSlotWrite(d: Disk, inode: Inode, bm: seq<bool>, lb: nat, f: int, d2: Disk)
    requires DirValid(d, inode, bm) && NUM_DIRECT <= lb < MAX_LBLOCKS && BlocksFor(Count(inode)) <= lb
    requires inode.indirect[GroupOf(lb)] != UNALLOCATED
    requires d2 == d[inode.indirect[GroupOf(lb)] :=
      PtrBlk(PtrsOf(Get(d, inode.indirect[GroupOf(lb)]))[IndexInGroup(lb) := f])]
    ensures DirValid(d2, inode, bm) && Entries(d2, inode) == Entries(d, inode)
    ensures PtrAt(d2, inode, lb) == f
    ensures forall p :: 0 <= p < NumRefs(inode) ==> Ref(d2, inode, p) == Ref(d, inode, p)
  {
    var g := GroupOf(lb);
    var pb := inode.indirect[g];
    var nb := BlocksFor(Count(inode));
    assert Ref(d, inode, NUM_DIRECT + g) == pb;
    RefDistinct(d, inode, bm, NUM_DIRECT + g);
    forall l | 0 <= l < nb
      ensures PtrAt(d2, inode, l) == PtrAt(d, inode, l)
      ensures Get(d2, PtrAt(d, inode, l)) == Get(d, PtrAt(d, inode, l))
    {
      UsedBlock(d, inode, bm, l);
      if l >= NUM_DIRECT {
        UsedGroup(d, inode, bm, l);
        if GroupOf(l) == g {
          assert IndexInGroup(l) != IndexInGroup(lb);
        }
      }
    }
    SameView(d, d2, inode, bm);
    forall p | 0 <= p < NumRefs(inode)
      ensures Ref(d2, inode, p) == Ref(d, inode, p)
    {
      if p >= NUM_DIRECT + NUM_INDIRECT {
        assert p - NUM_INDIRECT < nb;
      }
    }
  }

  // ---------------------------------------------------------------------------------------
  // dir_add, stage by stage.

  /** A directory inode as stored: in the table under its own number, and consistent. */
  ghost predicate Consistent(d: Disk, inode: Inode, bm: seq<bool>) {
    inode.ino < MAX_INUM && ReadInode(d, inode.ino) == inode && DirValid(d, inode, bm)
  }

  /** Ready to place entry number Count(inode) in logical block lb: the directory is
      consistent with its old entries, and block lb is allocated, owned, referenced once,
      and reachable through an allocated pointer block when it is indirect. */
  ghost predicate Ready(d: Disk, inode: Inode, bm: seq<bool>, lb: nat, old_entries: seq<Dirent>) {
    && DirValid(d, inode, bm) && Entries(d, inode) == old_entries
    && lb < MAX_LBLOCKS && Count(inode) < MAX_ENTRIES
    && PtrAt(d, inode, lb) != UNALLOCATED && Owned(bm, PtrAt(d, inode, lb))
    && (forall p :: 0 <= p < NumRefs(inode) && p != RefPos(lb) ==> Ref(d, inode, p) != PtrAt(d, inode, lb))
    && (lb >= NUM_DIRECT ==> inode.indirect[GroupOf(lb)] != UNALLOCATED)
  }

  /** Ready survives a writei, which only touches the inode table. */
  lemma {:induction false} ReadyAfterInodeWrite(d: Disk, inode: Inode, bm: seq<bool>, lb: nat,
                                                old_entries: seq<Dirent>, ino: nat, v: Inode)
    requires Ready(d, inode, bm, lb, old_entries) && ino < MAX_INUM
    ensures Ready(WriteInode(d, ino, v), inode, bm, lb, old_entries)
  {
    InodeWriteKeeps(d, inode, bm, ino, v);
    assert forall p :: 0 <= p < NumRefs(inode) ==> Ref(WriteInode(d, ino, v), inode, p) == Ref(d, inode, p);
  }

  /** A block already in use, or a stale direct block, can take the next entry. */
  lemma {:induction false} ReadyInPlace(d: Disk, inode: Inode, bm: seq<bool>, lb: nat)
    requires DirValid(d, inode, bm) && Count(inode) < MAX_ENTRIES && lb == Count(inode) / DIRENTS_PER_BLOCK
    requires lb < BlocksFor(Count(inode)) || (lb < NUM_DIRECT && inode.direct[lb] != UNALLOCATED)
    ensures Ready(d, inode, bm, lb, Entries(d, inode))
  {
    if lb < BlocksFor(Count(inode)) {
      UsedBlock(d, inode, bm, lb);
    } else {
      assert Ref(d, inode, lb) == inode.direct[lb];
      RefDistinct(d, inode, bm, lb);
    }
  }

  /** The first entry of a new block goes at slot 0, past every block in use. */
  lemma NewBlockSlot(inode: Inode, bm: seq<bool>, d: Disk, lb: nat)
    requires DirValid(d, inode, bm) && lb == Count(inode) / DIRENTS_PER_BLOCK
    requires (lb < NUM_DIRECT && inode.direct[lb] == UNALLOCATED)
      || (NUM_DIRECT <= lb < MAX_LBLOCKS && inode.indirect[GroupOf(lb)] == UNALLOCATED)
      || Count(inode) % DIRENTS_PER_BLOCK == 0
    ensures Count(inode) % DIRENTS_PER_BLOCK == 0 && BlocksFor(Count(inode)) <= lb
  {
    assert Count(inode) % DIRENTS_PER_BLOCK == 0 || lb < BlocksFor(Count(inode));
    UsedPointers(d, inode, bm);
  }

  /** Writing the entry into its slot and growing the size by one entry appends it. */
  lemma {:induction false} PlaceEntry(d: Disk, inode: Inode, bm: seq<bool>, lb: nat, slot: nat,
                                      e: Dirent, old_entries: seq<Dirent>, d2: Disk, ni: Inode)
    requires Ready(d, inode, bm, lb, old_entries)
    requires slot < DIRENTS_PER_BLOCK && Count(inode) == lb * DIRENTS_PER_BLOCK + slot
    requires d2 == d[PtrAt(d, inode, lb) := DirentBlk(DirentsOf(Get(d, PtrAt(d, inode, lb)))[slot := e])]
    requires ni.size == inode.size + DIRENT_SIZE && ni.direct == inode.direct && ni.indirect == inode.indirect
    ensures DirValid(d2, ni, bm) && Entries(d2, ni) == old_entries + [e]
  {
    var b := PtrAt(d, inode, lb);
    SlotWrite(d, inode, bm, lb, slot, e, b, d2);
    assert Entries(d2, inode) == Entries(d, inode);
    assert forall p :: 0 <= p < NumRefs(inode) ==> Ref(d2, inode, p) == Ref(d, inode, p);
    EntryPosition(lb, slot);
    GrowCount(d2, inode, bm, ni);
  }

  /** After the entry is appended, a lookup of its name finds it, given the name was not
      there before. */
  lemma AddedIsFound(d: Disk, ino: nat, bm: seq<bool>, old_entries: seq<Dirent>, e: Dirent, name: seq<char>)
    requires DirValid(d, ReadInode(d, ino), bm) && Entries(d, ReadInode(d, ino)) == old_entries + [e]
    requires Find(old_entries, name).None? && Matches(e, name)
    ensures Lookup(d, ino, name) == Some(e)
  {
    ValidScansAll(d, ReadInode(d, ino), bm);
    FindAppend(old_entries, e, name);
    assert (old_entries + [e])[|old_entries|] == e;
  }

  // ---------------------------------------------------------------------------------------
  // What freeing a block does to the bitmap, the pointers and the disk.

  /** unset_bitmap on the data bitmap for block b: its bit is cleared when b lies in range. */
  function ClearedBit(bm: seq<bool>, b: int): (r: seq<bool>)
    ensures |r| == |bm|
  {
    if 0 <= b - D_START_BLK < |bm| then bm[b - D_START_BLK := false] else bm
  }

  /** The pointers of logical block lb's group as read from its pointer block; nothing for a
      direct block. */
  function GroupPtrs(d: Disk, inode: Inode, lb: nat): (r: seq<int>)
    requires lb < MAX_LBLOCKS
    ensures lb >= NUM_DIRECT ==> |r| == PTRS_PER_BLOCK
  {
    if lb < NUM_DIRECT then [] else PtrsOf(Get(d, inode.indirect[GroupOf(lb)]))
  }

  /** The block that logical block lb names, with ptrs its group's pointers. */
  function NamedBlock(inode: Inode, lb: nat, ptrs: seq<int>): int
    requires lb < MAX_LBLOCKS && (lb >= NUM_DIRECT ==> |ptrs| == PTRS_PER_BLOCK)
  {
    if lb < NUM_DIRECT then inode.direct[lb] else ptrs[IndexInGroup(lb)]
  }

  /** The bitmap after freeing logical block lb: the block's bit cleared, and for the first
      block of a group the pointer block's bit too. */
  function ReleasedBits(bm: seq<bool>, inode: Inode, lb: nat, ptrs: seq<int>): (r: seq<bool>)
    requires lb < MAX_LBLOCKS && (lb >= NUM_DIRECT ==> |ptrs| == PTRS_PER_BLOCK)
    ensures |r| == |bm|
  {
    var b := ClearedBit(bm, NamedBlock(inode, lb, ptrs));
    if lb >= NUM_DIRECT && IndexInGroup(lb) == 0 then ClearedBit(b, inode.indirect[GroupOf(lb)]) else b
  }

  /** The inode after freeing logical block lb: a direct pointer set to -1; for an indirect
      block, the group's pointer set to -1 when lb is the first block of its group. */
  function ReleasedInode(inode: Inode, lb: nat): Inode
    requires lb < MAX_LBLOCKS
  {
    if lb < NUM_DIRECT then inode.(direct := inode.direct[lb := UNALLOCATED])
    else if IndexInGroup(lb) == 0 then inode.(indirect := inode.indirect[GroupOf(lb) := UNALLOCATED])
    else inode
  }

  /** The disk after freeing logical block lb: an indirect block's slot in its pointer block
      is set to -1 and the pointer block written back. */
  function ReleasedDisk(d: Disk, inode: Inode, lb: nat, ptrs: seq<int>): Disk
    requires lb < MAX_LBLOCKS && (lb >= NUM_DIRECT ==> |ptrs| == PTRS_PER_BLOCK)
  {
    if lb < NUM_DIRECT then d
    else d[inode.indirect[GroupOf(lb)] := PtrBlk(ptrs[IndexInGroup(lb) := UNALLOCATED])]
  }

  /** Freeing a block frees what it names and nothing else: the block's bit is clear, the
      pointer to it reads -1, and for the first block of a group the pointer block's bit is
      clear and the group's pointer is -1; every other bit and pointer is as it was. */
  lemma ReleaseFrees(d: Disk, bm: seq<bool>, inode: Inode, lb: nat, ptrs: seq<int>)
    requires lb < MAX_LBLOCKS && (lb >= NUM_DIRECT ==> |ptrs| == PTRS_PER_BLOCK)
    ensures var blk := NamedBlock(inode, lb, ptrs);
      var r := ReleasedBits(bm, inode, lb, ptrs);
      var ni := ReleasedInode(inode, lb);
      var first := lb >= NUM_DIRECT && IndexInGroup(lb) == 0;
      && (0 <= blk - D_START_BLK < |bm| ==> !r[blk - D_START_BLK])
      && (lb < NUM_DIRECT ==> ni.direct[lb] == UNALLOCATED && ni.indirect == inode.indirect)
      && (lb >= NUM_DIRECT ==>
            && ni.direct == inode.direct
            && PtrsOf(Get(ReleasedDisk(d, inode, lb, ptrs), inode.indirect[GroupOf(lb)]))[IndexInGroup(lb)] == UNALLOCATED)
      && (first ==> ni.indirect[GroupOf(lb)] == UNALLOCATED)
      && (first && 0 <= inode.indirect[GroupOf(lb)] - D_START_BLK < |bm| ==>
            !r[inode.indirect[GroupOf(lb)] - D_START_BLK])
      && (lb >= NUM_DIRECT && !first ==> ni == inode)
      && (forall i :: 0 <= i < |bm| && i + D_START_BLK != blk && (!first || i + D_START_BLK != inode.indirect[GroupOf(lb)])
            ==> r[i] == bm[i])
  {
  }

  /** The end of dir_remove: free logical block lb when `release` says so, then writei. */
  function FinishedInode(inode: Inode, lb: nat, release: bool): Inode
    requires lb < MAX_LBLOCKS
  {
    if release then ReleasedInode(inode, lb) else inode
  }

  function FinishedBits(bm: seq<bool>, inode: Inode, lb: nat, ptrs: seq<int>, release: bool): seq<bool>
    requires lb < MAX_LBLOCKS && (lb >= NUM_DIRECT ==> |ptrs| == PTRS_PER_BLOCK)
  {
    if release then ReleasedBits(bm, inode, lb, ptrs) else bm
  }

  function FinishedDisk(d: Disk, inode: Inode, lb: nat, ptrs: seq<int>, release: bool): Disk
    requires lb < MAX_LBLOCKS && (lb >= NUM_DIRECT ==> |ptrs| == PTRS_PER_BLOCK)
  {
    WriteInode(if release then ReleasedDisk(d, inode, lb, ptrs) else d, inode.ino, FinishedInode(inode, lb, release))
  }

  /** dir_remove of entry j from a directory of n entries frees the last block when that
      block held the last entry only and is entry j's own block or the one right after it:
      the early exit for a lone entry, or the compaction's test that the moved entry sat at
      offset 0 with one entry left after the block scanned. */
  predicate ReleasesLast(n: nat, j: nat) {
    n >= 1 && (n - 1) % DIRENTS_PER_BLOCK == 0 && (n - 1) / DIRENTS_PER_BLOCK <= j / DIRENTS_PER_BLOCK + 1
  }

  /** After dir_remove of entry j: the directory's record is the old one a dirent smaller,
      with the last block freed exactly when ReleasesLast says so, and the bitmap is the old
      one with that block's bits cleared, or unchanged when nothing is freed. */
  ghost predicate BlockReleased(d0: Disk, dir: Inode, bm0: seq<bool>, d: Disk, bm: seq<bool>, j: nat) {
    var n := Count(dir);
    && 1 <= n <= MAX_ENTRIES && dir.size >= DIRENT_SIZE
    && var shrunk := dir.(size := dir.size - DIRENT_SIZE);
       var lbL := (n - 1) / DIRENTS_PER_BLOCK;
       && ReadInode(d, dir.ino) == FinishedInode(shrunk, lbL, ReleasesLast(n, j))
       && bm == FinishedBits(bm0, shrunk, lbL, GroupPtrs(d0, shrunk, lbL), ReleasesLast(n, j))
  }

  /** dir_remove's release test once entry j = lb * DIRENTS_PER_BLOCK + i is found in a
      block holding cnt live entries, and is not alone in the last block: the moved entry
      sat at offset 0 with one entry after the entry's block exactly when ReleasesLast holds. */
  lemma ReleaseTest(n: nat, lb: nat, i: nat, cnt: nat)
    requires i < cnt && cnt == Min(n - lb * DIRENTS_PER_BLOCK, DIRENTS_PER_BLOCK) && !(i == 0 && cnt == 1)
    ensures n >= 1
    ensures ((n - 1) % DIRENTS_PER_BLOCK == 0 && n - lb * DIRENTS_PER_BLOCK - cnt == 1)
            <==> ReleasesLast(n, lb * DIRENTS_PER_BLOCK + i)
  {
    var j := lb * DIRENTS_PER_BLOCK + i;
    assert j / DIRENTS_PER_BLOCK == lb;
    if ReleasesLast(n, j) {
      var m := (n - 1) / DIRENTS_PER_BLOCK;
      assert n - 1 == m * DIRENTS_PER_BLOCK;
      assert m == lb + 1;
    }
  }

  /** What Finish leaves, a write of the shrunk record over d1 and the release of block
      lbL when the test says so, is the release BlockReleased asks of dir_remove. */
  lemma FinishReleases(d0: Disk, dir: Inode, bm0: seq<bool>, d1: Disk, d: Disk, bm: seq<bool>,
                       j: nat, shrunk: Inode, lbL: nat)
    requires 1 <= Count(dir) <= MAX_ENTRIES && dir.size >= DIRENT_SIZE
    requires shrunk == dir.(size := dir.size - DIRENT_SIZE) && lbL == Count(shrunk) / DIRENTS_PER_BLOCK
    requires lbL < MAX_LBLOCKS
    requires bm == FinishedBits(bm0, shrunk, lbL, GroupPtrs(d0, shrunk, lbL), ReleasesLast(Count(dir), j))
    requires d == FinishedDisk(d1, shrunk, lbL, GroupPtrs(d0, shrunk, lbL), ReleasesLast(Count(dir), j))
    ensures BlockReleased(d0, dir, bm0, d, bm, j)
  {
    assert Count(shrunk) == Count(dir) - 1;
    var release := ReleasesLast(Count(dir), j);
    var ptrs := GroupPtrs(d0, shrunk, lbL);
    ReadAfterWrite(if release then ReleasedDisk(d1, shrunk, lbL, ptrs) else d1, shrunk.ino,
                   FinishedInode(shrunk, lbL, release));
  }

  // ---------------------------------------------------------------------------------------
  // dir_remove, stage by stage.

  /** Block lb is the first one past the live entries and can be freed: it is allocated,
      owned and named at no other position, and when indirect its pointer block is set. */
  ghost predicate Releasable(d: Disk, inode: Inode, bm: seq<bool>, lb: nat) {
    && DirValid(d, inode, bm) && lb < MAX_LBLOCKS && BlocksFor(Count(inode)) == lb
    && PtrAt(d, inode, lb) != UNALLOCATED && Owned(bm, PtrAt(d, inode, lb))
    && (forall p :: 0 <= p < NumRefs(inode) && p != RefPos(lb) ==> Ref(d, inode, p) != PtrAt(d, inode, lb))
    && (lb >= NUM_DIRECT ==> inode.indirect[GroupOf(lb)] != UNALLOCATED)
  }

  /** Block lb can be released, and ptrs holds what its group's pointer block holds. */
  ghost predicate ReleaseReady(d: Disk, inode: Inode, bm: seq<bool>, lb: nat, ptrs: seq<int>) {
    && Releasable(d, inode, bm, lb)
    && (lb >= NUM_DIRECT ==> ptrs == PtrsOf(Get(d, inode.indirect[GroupOf(lb)])))
  }

  /** Dropping the last entry when it sits alone at slot 0 leaves its block releasable. */
  lemma {:induction false} ShrinkReleasable(d: Disk, inode: Inode, bm: seq<bool>, ni: Inode)
    requires DirValid(d, inode, bm) && Count(inode) >= 1 && (Count(inode) - 1) % DIRENTS_PER_BLOCK == 0
    requires ni.size + DIRENT_SIZE == inode.size && ni.direct == inode.direct && ni.indirect == inode.indirect
    ensures Releasable(d, ni, bm, (Count(inode) - 1) / DIRENTS_PER_BLOCK)
  {
    var lb := (Count(inode) - 1) / DIRENTS_PER_BLOCK;
    ShrinkCount(d, inode, bm, ni);
    UsedBlock(d, inode, bm, lb);
    SamePointerFields(d, inode, ni);
    assert Count(ni) == lb * DIRENTS_PER_BLOCK;
  }

  /** Freeing a releasable direct block: its pointer unset and its bit cleared. */
  lemma {:induction false} ReleaseDirect(d: Disk, inode: Inode, bm: seq<bool>, lb: nat, ni: Inode)
    requires Releasable(d, inode, bm, lb) && lb < NUM_DIRECT
    requires ni == inode.(direct := inode.direct[lb := UNALLOCATED])
    ensures DirValid(d, ni, bm[inode.direct[lb] - D_START_BLK := false])
    ensures Entries(d, ni) == Entries(d, inode)
  {
    DropDirect(d, inode, bm, lb, ni);
    ClearUnreferenced(d, ni, bm, inode.direct[lb]);
  }

  /** Freeing a releasable indirect block: its entry in the pointer block unset and its bit
      cleared. */
  lemma {:induction false} ReleaseIndirect(d: Disk, inode: Inode, bm: seq<bool>, lb: nat, d2: Disk)
    requires Releasable(d, inode, bm, lb) && lb >= NUM_DIRECT
    requires d2 == d[inode.indirect[GroupOf(lb)] :=
      PtrBlk(PtrsOf(Get(d, inode.indirect[GroupOf(lb)]))[IndexInGroup(lb) := UNALLOCATED])]
    ensures DirValid(d2, inode, bm[PtrAt(d, inode, lb) - D_START_BLK := false])
    ensures Entries(d2, inode) == Entries(d, inode)
  {
    var f := PtrAt(d, inode, lb);
    PointerSlotWrite(d, inode, bm, lb, UNALLOCATED, d2);
    assert NumRefs(inode) == RefPos(lb);
    ClearUnreferenced(d2, inode, bm, f);
  }

  /** Freeing the pointer block of a group with no live block: the pointer unset and its
      bit cleared. */
  lemma {:induction false} ReleaseGroup(d: Disk, inode: Inode, bm: seq<bool>, g: nat, ni: Inode)
    requires DirValid(d, inode, bm) && g < NUM_INDIRECT && Owned(bm, inode.indirect[g])
    requires BlocksFor(Count(inode)) <= NUM_DIRECT + g * PTRS_PER_BLOCK
    requires ni == inode.(indirect := inode.indirect[g := UNALLOCATED])
    ensures DirValid(d, ni, bm[inode.indirect[g] - D_START_BLK := false])
    ensures Entries(d, ni) == Entries(d, inode)
  {
    assert Ref(d, inode, NUM_DIRECT + g) == inode.indirect[g];
    DropIndirect(d, inode, bm, g, ni);
    ClearUnreferenced(d, ni, bm, inode.indirect[g]);
  }

  /** Any write over the pointer block of a group with no live block changes nothing the
      directory sees. */
  lemma {:induction false} DeadGroupWrite(d: Disk, inode: Inode, bm: seq<bool>, g: nat, x: Block)
    requires DirValid(d, inode, bm) && g < NUM_INDIRECT
    requires BlocksFor(Count(inode)) <= NUM_DIRECT + g * PTRS_PER_BLOCK
    ensures DirValid(d[inode.indirect[g] := x], inode, bm)
    ensures Entries(d[inode.indirect[g] := x], inode) == Entries(d, inode)
  {
    var b := inode.indirect[g];
    var d2 := d[b := x];
    if b != UNALLOCATED {
      assert Ref(d, inode, NUM_DIRECT + g) == b;
      RefDistinct(d, inode, bm, NUM_DIRECT + g);
    }
    forall lb | 0 <= lb < BlocksFor(Count(inode))
      ensures PtrAt(d2, inode, lb) == PtrAt(d, inode, lb)
      ensures Get(d2, PtrAt(d, inode, lb)) == Get(d, PtrAt(d, inode, lb))
    {
      UsedBlock(d, inode, bm, lb);
      if lb >= NUM_DIRECT {
        UsedGroup(d, inode, bm, lb);
      }
    }
    SameView(d, d2, inode, bm);
  }

  /** A directory whose pointer block for a group in use holds directory entries instead
      of block numbers is not consistent: the group's first block reads as block 0. */
  lemma {:induction false} ClobberedPointerBlock(d: Disk, inode: Inode, bm: seq<bool>, g: nat)
    requires g < NUM_INDIRECT && Count(inode) <= MAX_ENTRIES
    requires NUM_DIRECT + g * PTRS_PER_BLOCK < BlocksFor(Count(inode))
    requires Get(d, inode.indirect[g]).DirentBlk?
    ensures !DirValid(d, inode, bm)
  {
    var lb := NUM_DIRECT + g * PTRS_PER_BLOCK;
    GroupPosition(g, 0);
    assert PtrAt(d, inode, lb) == 0;
    assert Ref(d, inode, RefPos(lb)) == 0 && RefPos(lb) < NumRefs(inode);
  }

  /** The first write of dir_remove's compaction: entry n - 1 copied into the hole at entry j. */
  function FillHole(d: Disk, inode: Inode, j: nat): Disk
    requires j < Count(inode) <= MAX_ENTRIES
  {
    var remBlk := PtrAt(d, inode, j / DIRENTS_PER_BLOCK);
    d[remBlk := DirentBlk(DirentsOf(Get(d, remBlk))[j % DIRENTS_PER_BLOCK := EntryAt(d, inode, Count(inode) - 1)])]
  }

  /** Both writes of the compaction: after the hole is filled, the old slot of entry n - 1 is
      cleared when it lives in another block. */
  function GapWrites(d: Disk, inode: Inode, j: nat): Disk
    requires j < Count(inode) <= MAX_ENTRIES
  {
    var n := Count(inode);
    var remBlk := PtrAt(d, inode, j / DIRENTS_PER_BLOCK);
    var finalBlk := PtrAt(d, inode, (n - 1) / DIRENTS_PER_BLOCK);
    if remBlk != finalBlk then
      FillHole(d, inode, j)[finalBlk := DirentBlk(DirentsOf(Get(d, finalBlk))[(n - 1) % DIRENTS_PER_BLOCK := ZERO_DIRENT])]
    else FillHole(d, inode, j)
  }

  /** What the two writes leave: the same pointers, and every entry but j and n - 1 in place,
      entry j holding entry n - 1 when they differ. */
  ghost predicate Compacted(d: Disk, d2: Disk, inode: Inode, bm: seq<bool>, j: nat)
    requires j < Count(inode) <= MAX_ENTRIES
  {
    && DirValid(d2, inode, bm)
    && (forall l :: 0 <= l < MAX_LBLOCKS ==> PtrAt(d2, inode, l) == PtrAt(d, inode, l))
    && (forall t :: 0 <= t < Count(inode) && t != j && t != Count(inode) - 1 ==>
          EntryAt(d2, inode, t) == EntryAt(d, inode, t))
    && (j != Count(inode) - 1 ==> EntryAt(d2, inode, j) == EntryAt(d, inode, Count(inode) - 1))
  }

  /** The pointer blocks of a directory and the whole inode table are as they were. */
  ghost predicate TableAndPointersKept(d: Disk, d2: Disk, inode: Inode) {
    && (forall g :: 0 <= g < NUM_INDIRECT ==> Get(d2, inode.indirect[g]) == Get(d, inode.indirect[g]))
    && (forall o: nat :: o < MAX_INUM ==> ReadInode(d2, o) == ReadInode(d, o))
  }

  /** A write to a used block is not a write to a pointer block or to the inode table. */
  lemma {:induction false} UsedBlockApart(d: Disk, inode: Inode, bm: seq<bool>, lb: nat, x: Block)
    requires DirValid(d, inode, bm) && lb < BlocksFor(Count(inode))
    ensures lb < MAX_LBLOCKS && TableAndPointersKept(d, d[PtrAt(d, inode, lb) := x], inode)
  {
    var b := PtrAt(d, inode, lb);
    UsedBlock(d, inode, bm, lb);
    forall g | 0 <= g < NUM_INDIRECT
      ensures inode.indirect[g] != b
    {
      assert Ref(d, inode, NUM_DIRECT + g) == inode.indirect[g];
      RefPosIsPtrAt(d, inode, lb);
    }
    DataWriteKeepsInodes(d, b, x);
  }

  /** Writing the slot of live entry t0: the directory stays consistent and that entry alone
      changes. */
  lemma {:induction false} UsedSlotWrite(d: Disk, inode: Inode, bm: seq<bool>, t0: nat, e: Dirent, d2: Disk)
    requires DirValid(d, inode, bm) && t0 < Count(inode)
    requires d2 == d[PtrAt(d, inode, t0 / DIRENTS_PER_BLOCK) :=
      DirentBlk(DirentsOf(Get(d, PtrAt(d, inode, t0 / DIRENTS_PER_BLOCK)))[t0 % DIRENTS_PER_BLOCK := e])]
    ensures DirValid(d2, inode, bm)
    ensures forall l :: 0 <= l < MAX_LBLOCKS ==> PtrAt(d2, inode, l) == PtrAt(d, inode, l)
    ensures forall t :: 0 <= t < Count(inode) && t != t0 ==> EntryAt(d2, inode, t) == EntryAt(d, inode, t)
    ensures EntryAt(d2, inode, t0) == e
  {
    var lb := t0 / DIRENTS_PER_BLOCK;
    BlocksCover(Count(inode));
    UsedBlock(d, inode, bm, lb);
    SlotWrite(d, inode, bm, lb, t0 % DIRENTS_PER_BLOCK, e, PtrAt(d, inode, lb), d2);
    assert lb * DIRENTS_PER_BLOCK + t0 % DIRENTS_PER_BLOCK == t0;
  }

  lemma {:induction false} HoleFilled(d: Disk, inode: Inode, bm: seq<bool>, j: nat)
    requires DirValid(d, inode, bm) && j < Count(inode)
    ensures Compacted(d, FillHole(d, inode, j), inode, bm, j)
  {
    UsedSlotWrite(d, inode, bm, j, EntryAt(d, inode, Count(inode) - 1), FillHole(d, inode, j));
  }

  lemma {:induction false} LastCleared(d: Disk, inode: Inode, bm: seq<bool>, j: nat)
    requires DirValid(d, inode, bm) && j < Count(inode)
    ensures Compacted(d, GapWrites(d, inode, j), inode, bm, j)
  {
    var n := Count(inode);
    var lbL := (n - 1) / DIRENTS_PER_BLOCK;
    var d1 := FillHole(d, inode, j);
    HoleFilled(d, inode, bm, j);
    if PtrAt(d, inode, j / DIRENTS_PER_BLOCK) != PtrAt(d, inode, lbL) {
      LastClearedApart(d, inode, bm, j);
    } else {
      assert GapWrites(d, inode, j) == d1;
    }
  }

  /** LastCleared when the last entry sits in another block than entry j. */
  lemma {:induction false} LastClearedApart(d: Disk, inode: Inode, bm: seq<bool>, j: nat)
    requires DirValid(d, inode, bm) && j < Count(inode)
    requires Compacted(d, FillHole(d, inode, j), inode, bm, j)
    requires PtrAt(d, inode, j / DIRENTS_PER_BLOCK) != PtrAt(d, inode, (Count(inode) - 1) / DIRENTS_PER_BLOCK)
    ensures Compacted(d, GapWrites(d, inode, j), inode, bm, j)
  {
    var n := Count(inode);
    var lbL := (n - 1) / DIRENTS_PER_BLOCK;
    var d1 := FillHole(d, inode, j);
    var d2 := GapWrites(d, inode, j);
    assert PtrAt(d1, inode, lbL) == PtrAt(d, inode, lbL);
    UsedSlotWrite(d1, inode, bm, n - 1, ZERO_DIRENT, d2);
    CompactedThenCleared(d, d1, d2, inode, bm, j);
  }

  /** Clearing the old slot of the last entry after the hole is filled keeps the compaction. */
  lemma {:induction false} CompactedThenCleared(d: Disk, d1: Disk, d2: Disk, inode: Inode, bm: seq<bool>, j: nat)
    requires j < Count(inode) <= MAX_ENTRIES && Compacted(d, d1, inode, bm, j) && DirValid(d2, inode, bm)
    requires forall l :: 0 <= l < MAX_LBLOCKS ==> PtrAt(d2, inode, l) == PtrAt(d1, inode, l)
    requires forall t :: 0 <= t < Count(inode) && t != Count(inode) - 1 ==> EntryAt(d2, inode, t) == EntryAt(d1, inode, t)
    ensures Compacted(d, d2, inode, bm, j)
  {
  }

  /** Neither write touches a pointer block or the inode table. */
  lemma {:induction false} GapApart(d: Disk, inode: Inode, bm: seq<bool>, j: nat)
    requires DirValid(d, inode, bm) && j < Count(inode)
    ensures TableAndPointersKept(d, GapWrites(d, inode, j), inode)
  {
    var n := Count(inode);
    var lbL := (n - 1) / DIRENTS_PER_BLOCK;
    var remBlk := PtrAt(d, inode, j / DIRENTS_PER_BLOCK);
    var finalBlk := PtrAt(d, inode, lbL);
    var d1 := FillHole(d, inode, j);
    var d2 := GapWrites(d, inode, j);
    BlocksCover(n);
    UsedBlockApart(d, inode, bm, j / DIRENTS_PER_BLOCK,
      DirentBlk(DirentsOf(Get(d, remBlk))[j % DIRENTS_PER_BLOCK := EntryAt(d, inode, n - 1)]));
    if remBlk != finalBlk {
      HoleFilled(d, inode, bm, j);
      assert PtrAt(d1, inode, lbL) == finalBlk;
      UsedBlockApart(d1, inode, bm, lbL,
        DirentBlk(DirentsOf(Get(d, finalBlk))[(n - 1) % DIRENTS_PER_BLOCK := ZERO_DIRENT]));
      KeptTwice(d, d1, d2, inode);
    } else {
      assert d2 == d1;
    }
  }

  lemma KeptTwice(d: Disk, d1: Disk, d2: Disk, inode: Inode)
    requires TableAndPointersKept(d, d1, inode) && TableAndPointersKept(d1, d2, inode)
    ensures TableAndPointersKept(d, d2, inode)
  {
  }

  /** The compaction writes, with one entry counted less: the directory stays consistent and
      holds the old entries with the last one moved into the hole. When the new count fills
      whole blocks, the block the last entry came from is releasable. */
  lemma {:induction false} GapClosed(d: Disk, inode: Inode, bm: seq<bool>, j: nat, ni: Inode)
    requires DirValid(d, inode, bm) && j < Count(inode)
    requires ni.size + DIRENT_SIZE == inode.size && ni.direct == inode.direct && ni.indirect == inode.indirect
    ensures TableAndPointersKept(d, GapWrites(d, inode, j), inode)
    ensures DirValid(GapWrites(d, inode, j), ni, bm)
    ensures Entries(GapWrites(d, inode, j), ni) == SwapRemove(Entries(d, inode), j)
    ensures Count(ni) % DIRENTS_PER_BLOCK == 0 ==>
      Releasable(GapWrites(d, inode, j), ni, bm, Count(ni) / DIRENTS_PER_BLOCK)
  {
    var d2 := GapWrites(d, inode, j);
    LastCleared(d, inode, bm, j);
    GapApart(d, inode, bm, j);
    ShrinkCount(d2, inode, bm, ni);
    assert Entries(d2, ni) == SwapRemove(Entries(d, inode), j);
    if Count(ni) % DIRENTS_PER_BLOCK == 0 {
      ShrinkReleasable(d2, inode, bm, ni);
    }
  }

  /** dir_remove's lone-entry case: the last entry sits alone at slot 0 of its block; that
      slot is zeroed and one entry less is counted. The directory is left without the entry
      and the block is releasable; the inode table and the pointer blocks are untouched. */
  lemma {:induction false} LoneCleared(d: Disk, inode: Inode, bm: seq<bool>, ni: Inode, ptrs: seq<int>,
                                       lb: nat, b: int)
    requires DirValid(d, inode, bm) && lb < MAX_LBLOCKS && Count(inode) == lb * DIRENTS_PER_BLOCK + 1
    requires inode.ino < MAX_INUM && ni == inode.(size := inode.size - DIRENT_SIZE)
    requires ptrs == GroupPtrs(d, ni, lb) && b == PtrAt(d, inode, lb)
    ensures var d1 := d[b := DirentBlk(DirentsOf(Get(d, b))[0 := ZERO_DIRENT])];
      && ReleaseReady(d1, ni, bm, lb, ptrs)
      && Shrunk(d, inode, d1, ni, bm, Count(inode) - 1)
  {
    var n := Count(inode);
    EntryPosition(lb, 0);
    var x := DirentBlk(DirentsOf(Get(d, b))[0 := ZERO_DIRENT]);
    var d1 := d[b := x];
    BlocksCover(n);
    UsedSlotWrite(d, inode, bm, n - 1, ZERO_DIRENT, d1);
    UsedBlockApart(d, inode, bm, lb, x);
    ShrinkCount(d1, inode, bm, ni);
    ShrinkReleasable(d1, inode, bm, ni);
    assert Entries(d1, ni) == SwapRemove(Entries(d, inode), n - 1);
  }

  // ---------------------------------------------------------------------------------------
  // The directory's record after each stage.

  /** Every inode record other than `ino` reads as before. */
  ghost predicate OthersKept(d0: Disk, d: Disk, ino: nat) {
    forall o: nat :: o < MAX_INUM && o != ino ==> ReadInode(d, o) == ReadInode(d0, o)
  }

  /** The fields of an inode that directory operations never change. */
  predicate SameIdentity(a: Inode, b: Inode) {
    a.ino == b.ino && a.valid == b.valid && a.itype == b.itype && a.link == b.link
  }

  /** Part way through dir_add: the directory's record on disk is `inode`, which differs
      from `dir` at most in its block pointers and lists the same entries; no other inode
      record has changed. */
  ghost predicate Staged(d0: Disk, dir: Inode, d: Disk, inode: Inode, bm: seq<bool>) {
    && Consistent(d, inode, bm) && SameIdentity(inode, dir) && inode.size == dir.size
    && Entries(d, inode) == Entries(d0, dir) && OthersKept(d0, d, dir.ino)
  }

  /** After dir_remove of entry j: the directory's record on disk counts one entry less, is
      consistent and lists the old entries with the last one moved into position j; no
      other inode record has changed. */
  ghost predicate Removed(d0: Disk, dir: Inode, d: Disk, bm: seq<bool>, j: nat) {
    var ni := ReadInode(d, dir.ino);
    && j < |Entries(d0, dir)|
    && Consistent(d, ni, bm) && SameIdentity(ni, dir) && ni.size + DIRENT_SIZE == dir.size
    && Entries(d, ni) == SwapRemove(Entries(d0, dir), j) && OthersKept(d0, d, dir.ino)
  }

  /** Part way through dir_remove: `inode`, the directory with one entry counted less, is
      consistent on disk d and lists the old entries with entry j removed; the inode table
      is as it was. */
  ghost predicate Shrunk(d0: Disk, dir: Inode, d: Disk, inode: Inode, bm: seq<bool>, j: nat) {
    && dir.ino < MAX_INUM && j < |Entries(d0, dir)|
    && DirValid(d, inode, bm) && Entries(d, inode) == SwapRemove(Entries(d0, dir), j)
    && SameIdentity(inode, dir) && inode.size + DIRENT_SIZE == dir.size
    && forall o: nat :: o < MAX_INUM ==> ReadInode(d, o) == ReadInode(d0, o)
  }

  /** A release that keeps the directory consistent, its entries and the inode table keeps
      it shrunk. */
  lemma ReleasedShrunk(d0: Disk, dir: Inode, dm: Inode, d1: Disk, bm1: seq<bool>, inode: Inode,
                       d: Disk, bm: seq<bool>, j: nat, lb: nat)
    requires lb < MAX_LBLOCKS && Shrunk(d0, dir, d1, inode, bm1, j) && dm == ReleasedInode(inode, lb)
    requires DirValid(d, dm, bm) && Entries(d, dm) == Entries(d1, inode)
    requires forall o: nat :: o < MAX_INUM ==> ReadInode(d, o) == ReadInode(d1, o)
    ensures Shrunk(d0, dir, d, dm, bm, j)
  {
  }

  /** The closing writei of dir_remove turns a shrunk directory into a removal. */
  lemma Committed(d0: Disk, dir: Inode, d: Disk, ni: Inode, bm: seq<bool>, j: nat)
    requires Shrunk(d0, dir, d, ni, bm, j)
    ensures Removed(d0, dir, WriteInode(d, ni.ino, ni), bm, j)
  {
    InodeWriteKeeps(d, ni, bm, ni.ino, ni);
    ReadAfterWrite(d, ni.ino, ni);
    WriteKeepsOthers(d, ni.ino, ni);
  }

  /** The two writes of the compaction as the code performs them: the entry numbered
      Count(inode) (the size already decremented) copied from its block into slot remSlot of
      buffer buf, which is written to remBlk; then that entry's slot zeroed in its own block,
      which is written when it is another block. */
  function MovedLast(d: Disk, inode: Inode, remBlk: int, remSlot: nat, buf: seq<Dirent>): Disk
    requires Count(inode) / DIRENTS_PER_BLOCK < MAX_LBLOCKS && remSlot < |buf|
  {
    var lbL := Count(inode) / DIRENTS_PER_BLOCK;
    var slotL := Count(inode) % DIRENTS_PER_BLOCK;
    var finalBlk := PtrAt(d, inode, lbL);
    var last := DirentsOf(Get(d, finalBlk));
    var d1 := d[remBlk := DirentBlk(buf[remSlot := last[slotL]])];
    if remBlk != finalBlk then d1[finalBlk := DirentBlk(last[slotL := ZERO_DIRENT])] else d1
  }

  /** The compaction path of dir_remove, entry lb * DIRENTS_PER_BLOCK + i found in a block
      of cnt live entries and not alone in the last block: the release Finish performs on
      the source's test is the one BlockReleased asks for. */
  lemma GapReleases(d0: Disk, dir: Inode, bm0: seq<bool>, d: Disk, bm: seq<bool>, inode: Inode,
                    remBlk: int, remSlot: nat, buf: seq<Dirent>, numDirents: int, lb: nat, i: nat, cnt: nat)
    requires DirValid(d0, dir, bm0) && dir.size >= DIRENT_SIZE && inode == dir.(size := dir.size - DIRENT_SIZE)
    requires i < cnt && cnt == Min(Count(dir) - lb * DIRENTS_PER_BLOCK, DIRENTS_PER_BLOCK) && !(i == 0 && cnt == 1)
    requires numDirents == dir.size / DIRENT_SIZE - lb * DIRENTS_PER_BLOCK - cnt && remSlot < |buf|
    requires var lbL := Count(inode) / DIRENTS_PER_BLOCK;
      && lbL < MAX_LBLOCKS
      && var ptrs := GroupPtrs(d0, inode, lbL);
         var release := Count(inode) % DIRENTS_PER_BLOCK == 0 && numDirents == 1;
         && bm == FinishedBits(bm0, inode, lbL, ptrs, release)
         && d == FinishedDisk(MovedLast(d0, inode, remBlk, remSlot, buf), inode, lbL, ptrs, release)
    ensures BlockReleased(d0, dir, bm0, d, bm, lb * DIRENTS_PER_BLOCK + i)
  {
    ReleaseTest(Count(dir), lb, i, cnt);
    assert Count(inode) == Count(dir) - 1;
    FinishReleases(d0, dir, bm0, MovedLast(d0, inode, remBlk, remSlot, buf), d, bm,
                   lb * DIRENTS_PER_BLOCK + i, inode, Count(inode) / DIRENTS_PER_BLOCK);
  }

  /** Those writes change only the two blocks they name; when the two differ, the first
      holds the buffer at every slot but remSlot. */
  lemma MovedLastCells(d: Disk, inode: Inode, remBlk: int, remSlot: nat, buf: seq<Dirent>, c: int)
    requires Count(inode) / DIRENTS_PER_BLOCK < MAX_LBLOCKS && remSlot < |buf| == DIRENTS_PER_BLOCK
    ensures var finalBlk := PtrAt(d, inode, Count(inode) / DIRENTS_PER_BLOCK);
      var m := MovedLast(d, inode, remBlk, remSlot, buf);
      && (c != remBlk && c != finalBlk ==> Get(m, c) == Get(d, c))
      && (remBlk != finalBlk ==>
            forall t :: 0 <= t < DIRENTS_PER_BLOCK && t != remSlot ==> DirentsOf(Get(m, remBlk))[t] == buf[t])
  {
  }

  /** Carried out on the block and buffer of entry j, those writes are the compaction. */
  lemma MovedLastIsGapWrites(d: Disk, dir: Inode, j: nat, inode: Inode)
    requires j < Count(dir) <= MAX_ENTRIES && inode == dir.(size := dir.size - DIRENT_SIZE)
    ensures Count(inode) == Count(dir) - 1
    ensures MovedLast(d, inode, PtrAt(d, dir, j / DIRENTS_PER_BLOCK), j % DIRENTS_PER_BLOCK,
      DirentsOf(Get(d, PtrAt(d, dir, j / DIRENTS_PER_BLOCK)))) == GapWrites(d, dir, j)
  {
    assert Count(inode) == Count(dir) - 1;
    SamePointerFields(d, dir, inode);
  }

  /** The last entry of a consistent directory is reachable: its block's pointer, and its
      group's pointer block, are set. */
  lemma {:induction false} LastReachable(d: Disk, dir: Inode, bm: seq<bool>, inode: Inode)
    requires DirValid(d, dir, bm) && Count(dir) >= 1 && inode == dir.(size := dir.size - DIRENT_SIZE)
    ensures Count(inode) == Count(dir) - 1 && Count(inode) / DIRENTS_PER_BLOCK < MAX_LBLOCKS
    ensures PtrAt(d, inode, Count(inode) / DIRENTS_PER_BLOCK) != UNALLOCATED
    ensures Count(inode) / DIRENTS_PER_BLOCK >= NUM_DIRECT ==>
      inode.indirect[GroupOf(Count(inode) / DIRENTS_PER_BLOCK)] != UNALLOCATED
  {
    assert Count(inode) == Count(dir) - 1;
    BlocksCover(Count(dir));
    UsedBlock(d, dir, bm, Count(inode) / DIRENTS_PER_BLOCK);
    SamePointerFields(d, dir, inode);
  }
}
