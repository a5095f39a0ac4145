/** The namespace operations built on the directory layer: rufs_mkdir and rufs_create, which
    add a name, and rufs_rmdir and rufs_unlink, which remove one. */
module Operations {
  import opened Layout
  import opened InodeStore
  import opened Bitmap
  import opened Directory
  import opened DirectoryFrame
  import opened Paths
  import opened Resolution
  import opened Format
  import opened FileSystem

  /** The parent directory of a path, as get_node_by_path finds it from the root. */
  function Parent(d: Disk, path: seq<char>): Option<Inode> {
    ResolvePath(d, DirName(path), 0)
  }

  /** mkdir and create refuse the name when the parent's first direct pointer is allocated
      and dir_find finds the base name there. */
  ghost predicate Taken(d: Disk, path: seq<char>) {
    var par := Parent(d, path);
    par.Some? && par.value.direct[0] != UNALLOCATED && Lookup(d, par.value.ino, BaseName(path)).Some?
  }

  /** After a successful mkdir or create: the parent exists and the new record is in the
      table. When the parent was consistent and is not the new inode itself, the parent now
      lists one more entry, named by the base name and pointing at the new inode, a lookup of
      the name finds that entry, the parent stays consistent, and no third record changed. */
  ghost predicate Made(d0: Disk, bm0: seq<bool>, d: Disk, bm: seq<bool>, path: seq<char>, node: Inode) {
    var base := BaseName(path);
    var e := Dirent(node.ino, 1, base, |base|);
    && Parent(d0, path).Some?
    && ReadInode(d, node.ino) == node
    && var par := Parent(d0, path).value;
    (Consistent(d0, par, bm0) && node.ino != par.ino ==>
      var ni := ReadInode(d, par.ino);
      && Consistent(d, ni, bm) && SameIdentity(ni, par) && ni.size == par.size + DIRENT_SIZE
      && Entries(d, ni) == Entries(d0, par) + [e]
      && Lookup(d, par.ino, base) == Some(e)
      && forall o: nat :: o < MAX_INUM && o != par.ino && o != node.ino ==> ReadInode(d, o) == ReadInode(d0, o))
  }

  /** The outcome of the closing dir_remove of rmdir and unlink on the parent: the base name
      missing from the scan means -EIO; on a consistent parent the call succeeds exactly when
      the name is listed, and then that entry is removed. */
  ghost predicate Unlinked(d0: Disk, bm0: seq<bool>, d: Disk, bm: seq<bool>, path: seq<char>, r: int)
    requires Parent(d0, path).Some?
  {
    var par := Parent(d0, path).value;
    var found := Find(Entries(d0, par), BaseName(path));
    && (Find(Scanned(d0, par), BaseName(path)).None? ==> r == -EIO)
    && (Consistent(d0, par, bm0) ==>
          (r == 0 <==> found.Some?) && (found.Some? ==> Removed(d0, par, d, bm, found.value)))
  }

  /** unset_bitmap of entry i: cleared when inside the bitmap. */
  function Unset(bits: seq<bool>, i: int): seq<bool> {
    if 0 <= i < |bits| then bits[i := false] else bits
  }

  /** A writei of another inode leaves a consistent directory consistent, with the same
      entries and the same answer to every lookup. */
  lemma InodeWriteKeepsLookups(d: Disk, dir: Inode, bm: seq<bool>, ino: nat, v: Inode)
    requires Consistent(d, dir, bm) && ino < MAX_INUM && ino != dir.ino
    ensures Consistent(WriteInode(d, ino, v), dir, bm)
    ensures Entries(WriteInode(d, ino, v), dir) == Entries(d, dir)
    ensures forall name :: Lookup(WriteInode(d, ino, v), dir.ino, name) == Lookup(d, dir.ino, name)
  {
    var d2 := WriteInode(d, ino, v);
    WriteLeavesOthers(d, ino, dir.ino, v);
    InodeWriteKeeps(d, dir, bm, ino, v);
    ValidScansAll(d, dir, bm);
    ValidScansAll(d2, dir, bm);
  }

  /** The part mkdir and create share: split the path, find the parent, refuse a name the
      parent already lists, claim an inode number, add the entry, and write the new record.
      `addFailed` tells a failing dir_add apart from a failing get_avail_ino. */
  method MakeNode(fs: Fs, path: seq<char>, itype: int, link: int) returns (r: int, addFailed: bool)
    requires fs.Valid() && |path| >= 1 && path[0] == '/' && TrailingName(path) < NAME_CAP
    modifies fs, fs.inodeBitmap, fs.dataBitmap
    ensures var d0, ib0, db0 := old(fs.disk), old(fs.inodeBitmap[..]), old(fs.dataBitmap[..]);
      var par := Parent(d0, path);
      var ino := AllocIndex(ib0, MAX_INUM);
      && (r == 0 || r == -ENOENT || r == -EEXIST || r == -ENOMEM)
      && (r == -ENOENT <==> par.None?)
      && (r == -EEXIST <==> Taken(d0, path))
      && (r == -ENOENT || r == -EEXIST ==>
            fs.disk == d0 && fs.inodeBitmap[..] == ib0 && fs.dataBitmap[..] == db0)
      && (par.Some? && !Taken(d0, path) ==> fs.inodeBitmap[..] == AllocBits(ib0, MAX_INUM))
      && ((par.Some? && !Taken(d0, path) && ino == -1) <==> (r == -ENOMEM && !addFailed))
      && (r == -ENOMEM && !addFailed ==> fs.disk == d0 && fs.dataBitmap[..] == db0)
      && (addFailed ==>
            r == -ENOMEM && 0 <= ino && par.Some?
            && (Count(par.value) >= MAX_ENTRIES || DataFull(fs.dataBitmap[..])))
      && OnlySet(db0, fs.dataBitmap[..])
      && (r == 0 ==>
            0 <= ino < MAX_INUM
            && Made(d0, db0, fs.disk, fs.dataBitmap[..], path, NewInode(ino as u16, itype, link, itype)))
  {
    var dirName, baseName := DirBaseSplit(path);
    DirNameAbsolute(path);
    var found, dirInode := fs.GetNodeByPath(dirName, 0);
    if found < 0 {
      return -ENOENT, false;
    }
    if dirInode.direct[0] != UNALLOCATED {
      var hit, _ := fs.DirFind(dirInode.ino, baseName);
      if hit == 0 {
        return -EEXIST, false;
      }
    }
    ghost var d0, db0 := fs.disk, fs.dataBitmap[..];
    AllocSpec(fs.inodeBitmap[..], MAX_INUM);
    var ino := fs.GetAvailIno();
    if ino == -1 {
      return -ENOMEM, false;
    }
    var ret := fs.DirAdd(dirInode, ino as u16, baseName);
    if ret < 0 {
      return ret, true;
    }
    var node := NewInode(ino as u16, itype, link, itype);
    ghost var d1 := fs.disk;
    fs.Writei(ino as u16, node);
    ReadAfterWrite(d1, ino, node);
    if Consistent(d0, dirInode, db0) && ino != dirInode.ino {
      var ni := ReadInode(d1, dirInode.ino);
      InodeWriteKeepsLookups(d1, ni, fs.dataBitmap[..], ino, node);
      WriteKeepsOthers(d1, ino, node);
    }
    r, addFailed := 0, false;
  }

  /** rufs_mkdir: a new directory record with the requested permissions and two links. A
      failing dir_add is passed on as it is, which can only be -ENOMEM. */
  method Mkdir(fs: Fs, path: seq<char>, mode: bv32) returns (r: int)
    requires fs.Valid() && |path| >= 1 && path[0] == '/' && TrailingName(path) < NAME_CAP
    modifies fs, fs.inodeBitmap, fs.dataBitmap
    ensures var d0, ib0, db0 := old(fs.disk), old(fs.inodeBitmap[..]), old(fs.dataBitmap[..]);
      var par := Parent(d0, path);
      var ino := AllocIndex(ib0, MAX_INUM);
      var itype := TypeWithPerm(S_IFDIR_BITS, mode) as int;
      && (r == 0 || r == -ENOENT || r == -EEXIST || r == -ENOMEM)
      && (r == -ENOENT <==> par.None?)
      && (r == -EEXIST <==> Taken(d0, path))
      && (r == -ENOENT || r == -EEXIST ==>
            fs.disk == d0 && fs.inodeBitmap[..] == ib0 && fs.dataBitmap[..] == db0)
      && (par.Some? && !Taken(d0, path) ==> fs.inodeBitmap[..] == AllocBits(ib0, MAX_INUM))
      && (par.Some? && !Taken(d0, path) && ino == -1 ==> r == -ENOMEM && fs.disk == d0)
      && (r == -ENOMEM ==> ino == -1 || Count(par.value) >= MAX_ENTRIES || DataFull(fs.dataBitmap[..]))
      && OnlySet(db0, fs.dataBitmap[..])
      && (r == 0 ==>
            0 <= ino < MAX_INUM
            && Made(d0, db0, fs.disk, fs.dataBitmap[..], path, NewInode(ino as u16, itype, 2, itype)))
  {
    var addFailed;
    r, addFailed := MakeNode(fs, path, TypeWithPerm(S_IFDIR_BITS, mode) as int, 2);
  }

  /** rufs_create: a new regular-file record with the requested permissions and one link.
      get_avail_ino running out is -ENOMEM; a failing dir_add is reported as -EIO. */
  method Create(fs: Fs, path: seq<char>, mode: bv32) returns (r: int)
    requires fs.Valid() && |path| >= 1 && path[0] == '/' && TrailingName(path) < NAME_CAP
    modifies fs, fs.inodeBitmap, fs.dataBitmap
    ensures var d0, ib0, db0 := old(fs.disk), old(fs.inodeBitmap[..]), old(fs.dataBitmap[..]);
      var par := Parent(d0, path);
      var ino := AllocIndex(ib0, MAX_INUM);
      var itype := TypeWithPerm(S_IFREG_BITS, mode) as int;
      && (r == 0 || r == -ENOENT || r == -EEXIST || r == -ENOMEM || r == -EIO)
      && (r == -ENOENT <==> par.None?)
      && (r == -EEXIST <==> Taken(d0, path))
      && (r == -ENOENT || r == -EEXIST ==>
            fs.disk == d0 && fs.inodeBitmap[..] == ib0 && fs.dataBitmap[..] == db0)
      && (par.Some? && !Taken(d0, path) ==> fs.inodeBitmap[..] == AllocBits(ib0, MAX_INUM))
      && ((par.Some? && !Taken(d0, path) && ino == -1) <==> r == -ENOMEM)
      && (r == -ENOMEM ==> fs.disk == d0 && fs.dataBitmap[..] == db0)
      && (r == -EIO ==> 0 <= ino && (Count(par.value) >= MAX_ENTRIES || DataFull(fs.dataBitmap[..])))
      && OnlySet(db0, fs.dataBitmap[..])
      && (r == 0 ==>
            0 <= ino < MAX_INUM
            && Made(d0, db0, fs.disk, fs.dataBitmap[..], path, NewInode(ino as u16, itype, 1, itype)))
  {
    var addFailed;
    r, addFailed := MakeNode(fs, path, TypeWithPerm(S_IFREG_BITS, mode) as int, 1);
    if addFailed {
      r := -EIO;
    }
  }

  /** The closing steps of rmdir and unlink: get_node_by_path of the directory part, then
      the corrected dir_remove (Fs.DirRemove) of the base name there. -ENOENT when the parent
      does not resolve, -EIO when that removal fails. */
  method RemoveFromParent(fs: Fs, path: seq<char>, dirName: seq<char>, baseName: seq<char>) returns (r: int)
    requires fs.Valid() && dirName == DirName(path) && baseName == BaseName(path)
    requires |dirName| >= 1 && dirName[0] == '/'
    modifies fs, fs.dataBitmap
    ensures r == 0 || r == -ENOENT || r == -EIO
    ensures r == -ENOENT <==> Parent(old(fs.disk), path).None?
    ensures r != 0 ==> fs.disk == old(fs.disk) && fs.dataBitmap[..] == old(fs.dataBitmap[..])
    ensures OnlyCleared(old(fs.dataBitmap[..]), fs.dataBitmap[..])
    ensures Parent(old(fs.disk), path).Some? ==>
      Unlinked(old(fs.disk), old(fs.dataBitmap[..]), fs.disk, fs.dataBitmap[..], path, r)
  {
    var parFound, dirInode := fs.GetNodeByPath(dirName, 0);
    if parFound < 0 {
      return -ENOENT;
    }
    var removed := fs.DirRemove(dirInode, baseName);
    if removed < 0 {
      return -EIO;
    }
    r := 0;
  }

  /** rufs_rmdir: -1 when the path does not resolve, -ENOTEMPTY for a record of non-zero
      size; otherwise the record's inode bit is cleared, and then the entry is removed from
      the parent by the corrected dir_remove, -ENOENT when the parent does not resolve and -EIO
      when that removal fails. */
  method Rmdir(fs: Fs, path: seq<char>) returns (r: int)
    requires fs.Valid() && |path| >= 1 && path[0] == '/'
    modifies fs, fs.inodeBitmap, fs.dataBitmap
    ensures var d0, ib0, db0 := old(fs.disk), old(fs.inodeBitmap[..]), old(fs.dataBitmap[..]);
      var t := ResolvePath(d0, path, 0);
      var par := Parent(d0, path);
      && (r == 0 || r == -1 || r == -ENOTEMPTY || r == -ENOENT || r == -EIO)
      && (r == -1 <==> t.None?)
      && (r == -ENOTEMPTY <==> t.Some? && t.value.size > 0)
      && (r == -1 || r == -ENOTEMPTY ==> fs.inodeBitmap[..] == ib0)
      && (t.Some? && t.value.size == 0 ==> fs.inodeBitmap[..] == Unset(ib0, t.value.ino))
      && (r == -ENOENT <==> t.Some? && t.value.size == 0 && par.None?)
      && (r != 0 ==> fs.disk == d0 && fs.dataBitmap[..] == db0)
      && OnlyCleared(db0, fs.dataBitmap[..])
      && (t.Some? && t.value.size == 0 && par.Some? ==>
            Unlinked(d0, db0, fs.disk, fs.dataBitmap[..], path, r))
  {
    var dirName, baseName := DirBaseSplit(path);
    DirNameAbsolute(path);
    var found, target := fs.GetNodeByPath(path, 0);
    if found < 0 {
      return -1;
    }
    if target.size > 0 {
      return -ENOTEMPTY;
    }
    fs.UnsetInodeBit(target.ino);
    r := RemoveFromParent(fs, path, dirName, baseName);
  }

  // The blocks unlink frees, in the order it frees them.

  /** The blocks of one indirect group: the leading allocated pointers of its pointer block,
      then the pointer block itself. */
  function GroupBlocks(d: Disk, pb: int): seq<int> {
    var ptrs := PtrsOf(Get(d, pb));
    ptrs[..LeadingSet(ptrs, 0)] + [pb]
  }

  /** The blocks of the first n indirect groups. */
  function GroupsBlocks(d: Disk, inode: Inode, n: nat): seq<int>
    requires n <= NUM_INDIRECT
  {
    if n == 0 then [] else GroupsBlocks(d, inode, n - 1) + GroupBlocks(d, inode.indirect[n - 1])
  }

  /** Every block unlink releases: the leading allocated direct pointers, then the groups of
      the leading allocated indirect pointers. */
  function FileBlocks(d: Disk, inode: Inode): seq<int> {
    inode.direct[..LeadingSet(inode.direct, 0)] + GroupsBlocks(d, inode, LeadingSet(inode.indirect, 0))
  }

  /** A data bitmap with the bits of the listed blocks cleared; block b has bit b - D_START_BLK. */
  function Freed(bm: seq<bool>, blocks: seq<int>): (r: seq<bool>)
    ensures |r| == |bm|
  {
    seq(|bm|, i requires 0 <= i < |bm| => bm[i] && i + D_START_BLK !in blocks)
  }

  /** Freeing the listed blocks only clears bits, and leaves none of them marked in use. */
  lemma FreedReleases(bm: seq<bool>, blocks: seq<int>)
    ensures OnlyCleared(bm, Freed(bm, blocks))
    ensures forall k :: 0 <= k < |blocks| ==> !Owned(Freed(bm, blocks), blocks[k])
    ensures forall i :: 0 <= i < |bm| && i + D_START_BLK !in blocks ==> Freed(bm, blocks)[i] == bm[i]
  {
  }

  /** One more unset_bitmap extends the list of freed blocks. */
  lemma FreeOne(bm: seq<bool>, blocks: seq<int>, b: int)
    ensures Unset(Freed(bm, blocks), b - D_START_BLK) == Freed(bm, blocks + [b])
  {
  }

  /** The direct loop of unlink: clear the bits of the direct blocks up to the first
      unallocated pointer. */
  method FreeDirect(fs: Fs, inode: Inode, ghost bm0: seq<bool>, ghost acc: seq<int>)
    requires fs.Valid() && fs.dataBitmap[..] == Freed(bm0, acc)
    modifies fs.dataBitmap
    ensures fs.dataBitmap[..] == Freed(bm0, acc + inode.direct[..LeadingSet(inode.direct, 0)])
  {
    var i := 0;
    while i < NUM_DIRECT && inode.direct[i] != UNALLOCATED
      invariant 0 <= i <= NUM_DIRECT
      invariant forall k :: 0 <= k < i ==> inode.direct[k] != UNALLOCATED
      invariant fs.dataBitmap[..] == Freed(bm0, acc + inode.direct[..i])
    {
      fs.UnsetDataBit(inode.direct[i]);
      FreeOne(bm0, acc + inode.direct[..i], inode.direct[i]);
      assert inode.direct[..i + 1] == inode.direct[..i] + [inode.direct[i]];
      i := i + 1;
    }
    if i < NUM_DIRECT {
      LeadingExactly(inode.direct, i);
    } else {
      LeadingAtLeast(inode.direct, i);
    }
  }

  /** The inner loop of unlink for one group: read the pointer block, clear the bits of its
      leading allocated pointers, then the bit of the pointer block. */
  method FreeGroup(fs: Fs, pb: int, ghost bm0: seq<bool>, ghost acc: seq<int>)
    requires fs.Valid() && fs.dataBitmap[..] == Freed(bm0, acc)
    modifies fs.dataBitmap
    ensures fs.dataBitmap[..] == Freed(bm0, acc + GroupBlocks(fs.disk, pb))
  {
    var blkNums := PtrsOf(Get(fs.disk, pb));
    var k := 0;
    while k < PTRS_PER_BLOCK && blkNums[k] != UNALLOCATED
      invariant 0 <= k <= PTRS_PER_BLOCK
      invariant forall j :: 0 <= j < k ==> blkNums[j] != UNALLOCATED
      invariant fs.dataBitmap[..] == Freed(bm0, acc + blkNums[..k])
    {
      fs.UnsetDataBit(blkNums[k]);
      FreeOne(bm0, acc + blkNums[..k], blkNums[k]);
      assert blkNums[..k + 1] == blkNums[..k] + [blkNums[k]];
      k := k + 1;
    }
    if k < PTRS_PER_BLOCK {
      LeadingExactly(blkNums, k);
    } else {
      LeadingAtLeast(blkNums, k);
    }
    fs.UnsetDataBit(pb);
    FreeOne(bm0, acc + blkNums[..k], pb);
    assert acc + blkNums[..k] + [pb] == acc + GroupBlocks(fs.disk, pb);
  }

  /** The outer indirect loop of unlink: one group per allocated indirect pointer, up to the
      first unallocated one. */
  method FreeIndirect(fs: Fs, inode: Inode, ghost bm0: seq<bool>, ghost acc: seq<int>)
    requires fs.Valid() && fs.dataBitmap[..] == Freed(bm0, acc)
    modifies fs.dataBitmap
    ensures fs.dataBitmap[..] == Freed(bm0, acc + GroupsBlocks(fs.disk, inode, LeadingSet(inode.indirect, 0)))
  {
    var i := 0;
    while i < NUM_INDIRECT && inode.indirect[i] != UNALLOCATED
      invariant 0 <= i <= NUM_INDIRECT
      invariant forall k :: 0 <= k < i ==> inode.indirect[k] != UNALLOCATED
      invariant fs.dataBitmap[..] == Freed(bm0, acc + GroupsBlocks(fs.disk, inode, i))
    {
      FreeGroup(fs, inode.indirect[i], bm0, acc + GroupsBlocks(fs.disk, inode, i));
      assert GroupsBlocks(fs.disk, inode, i + 1) == GroupsBlocks(fs.disk, inode, i) + GroupBlocks(fs.disk, inode.indirect[i]);
      i := i + 1;
    }
    if i < NUM_INDIRECT {
      LeadingExactly(inode.indirect, i);
    } else {
      LeadingAtLeast(inode.indirect, i);
    }
  }

  /** Both release loops of unlink: the bits of every block of the record are cleared. */
  method FreeFile(fs: Fs, inode: Inode)
    requires fs.Valid()
    modifies fs.dataBitmap
    ensures fs.dataBitmap[..] == Freed(old(fs.dataBitmap[..]), FileBlocks(fs.disk, inode))
  {
    ghost var bm0 := fs.dataBitmap[..];
    assert bm0 == Freed(bm0, []);
    FreeDirect(fs, inode, bm0, []);
    ghost var directs := inode.direct[..LeadingSet(inode.direct, 0)];
    FreeIndirect(fs, inode, bm0, [] + directs);
    assert [] + directs + GroupsBlocks(fs.disk, inode, LeadingSet(inode.indirect, 0)) == FileBlocks(fs.disk, inode);
  }

  /** rufs_unlink: -1 when the path does not resolve. Otherwise every block of the record is
      released in the data bitmap and its inode bit is cleared (the record itself is left as
      it was), then the entry is removed from the parent by the corrected dir_remove:
      -ENOENT when the parent does not resolve, -EIO when that removal fails. */
  method Unlink(fs: Fs, path: seq<char>) returns (r: int)
    requires fs.Valid() && |path| >= 1 && path[0] == '/'
    modifies fs, fs.inodeBitmap, fs.dataBitmap
    ensures var d0, ib0, db0 := old(fs.disk), old(fs.inodeBitmap[..]), old(fs.dataBitmap[..]);
      var t := ResolvePath(d0, path, 0);
      var par := Parent(d0, path);
      && (r == 0 || r == -1 || r == -ENOENT || r == -EIO)
      && (r == -1 <==> t.None?)
      && (r == -1 ==> fs.disk == d0 && fs.inodeBitmap[..] == ib0 && fs.dataBitmap[..] == db0)
      && (t.Some? ==> fs.inodeBitmap[..] == Unset(ib0, t.value.ino))
      && (r == -ENOENT <==> t.Some? && par.None?)
      && (r != 0 ==> fs.disk == d0)
      && (t.Some? ==>
            var db1 := Freed(db0, FileBlocks(d0, t.value));
            && (r != 0 ==> fs.dataBitmap[..] == db1)
            && OnlyCleared(db1, fs.dataBitmap[..])
            && (par.Some? ==> Unlinked(d0, db1, fs.disk, fs.dataBitmap[..], path, r)))
  {
    var dirName, baseName := DirBaseSplit(path);
    DirNameAbsolute(path);
    var found, target := fs.GetNodeByPath(path, 0);
    if found < 0 {
      return -1;
    }
    FreeFile(fs, target);
    fs.UnsetInodeBit(target.ino);
    r := RemoveFromParent(fs, path, dirName, baseName);
  }
}
