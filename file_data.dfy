/** The bytes of a regular file as rufs_read and rufs_write see them through the 16 direct
    pointers: byte p sits at offset p % BLOCK_SIZE of the block named by direct pointer
    p / BLOCK_SIZE. */
module FileData {
  import opened Layout
  import opened InodeStore

  /** Bytes addressable through the direct pointers. */
  const DIRECT_BYTES: nat := 65536     // NUM_DIRECT * BLOCK_SIZE

  /** Byte `pos` of the file. The unset pointer -1 names no stored block, and the buffer the
      code clears before the read keeps its zeroes. */
  function ByteAt(d: Disk, inode: Inode, pos: nat): byte
    requires pos < DIRECT_BYTES
  {
    BytesOf(Get(d, inode.direct[pos / BLOCK_SIZE]))[pos % BLOCK_SIZE]
  }

  /** The n bytes of the file from `offset` on. */
  function ReadRange(d: Disk, inode: Inode, offset: nat, n: nat): seq<byte>
    requires offset + n <= DIRECT_BYTES
  {
    seq(n, q requires 0 <= q < n => ByteAt(d, inode, offset + q))
  }

  /** The memcpy into a block buffer: `src` copied in at `loc`, the rest of the block kept. */
  function Splice(block: seq<byte>, loc: nat, src: seq<byte>): (r: seq<byte>)
    requires loc + |src| <= |block|
    ensures |r| == |block|
    ensures forall q :: 0 <= q < |src| ==> r[loc + q] == src[q]
    ensures forall q :: 0 <= q < |block| && !(loc <= q < loc + |src|) ==> r[q] == block[q]
  {
    block[..loc] + src + block[loc + |src|..]
  }

  /** The set direct pointers name distinct blocks of the data region whose bits are set:
      what makes one block write touch one part of one file only. */
  predicate OwnsBlocks(inode: Inode, bm: seq<bool>) {
    && (forall j :: 0 <= j < NUM_DIRECT && inode.direct[j] != UNALLOCATED ==>
          D_START_BLK <= inode.direct[j] < MAX_DNUM && inode.direct[j] - D_START_BLK < |bm|
          && bm[inode.direct[j] - D_START_BLK])
    && (forall j, k :: 0 <= j < k < NUM_DIRECT && inode.direct[j] != UNALLOCATED ==>
          inode.direct[j] != inode.direct[k])
  }

  /** Byte positions by block and offset. */
  lemma BytePosition(blk: nat, loc: nat)
    requires loc < BLOCK_SIZE
    ensures (blk * BLOCK_SIZE + loc) / BLOCK_SIZE == blk
    ensures (blk * BLOCK_SIZE + loc) % BLOCK_SIZE == loc
  {
  }

  /** A position before the start of block sb lies in an earlier block. */
  lemma BeforeBlock(pos: nat, sb: nat)
    requires pos < sb * BLOCK_SIZE
    ensures pos / BLOCK_SIZE < sb
  {
  }

  /** Writing the block of direct pointer sb changes the bytes of that block only, and
      there it leaves what was written. */
  lemma {:induction false} StoreBytes(d: Disk, inode: Inode, sb: nat, x: seq<byte>, pos: nat)
    requires sb < NUM_DIRECT && pos < DIRECT_BYTES
    requires forall j :: 0 <= j < NUM_DIRECT && j != sb ==> inode.direct[j] != inode.direct[sb]
    ensures pos / BLOCK_SIZE != sb ==>
      ByteAt(d[inode.direct[sb] := DataBlk(x)], inode, pos) == ByteAt(d, inode, pos)
    ensures |x| == BLOCK_SIZE && pos / BLOCK_SIZE == sb ==>
      ByteAt(d[inode.direct[sb] := DataBlk(x)], inode, pos) == x[pos % BLOCK_SIZE]
  {
    var b := pos / BLOCK_SIZE;
    if b != sb {
      assert inode.direct[b] != inode.direct[sb];
    }
  }

  /** Writing an inode record leaves the bytes of a file whose blocks lie in the data region. */
  lemma InodeWriteKeepsBytes(d: Disk, inode: Inode, ino: nat, v: Inode, pos: nat)
    requires ino < MAX_INUM && pos < DIRECT_BYTES
    requires inode.direct[pos / BLOCK_SIZE] == UNALLOCATED || inode.direct[pos / BLOCK_SIZE] >= D_START_BLK
    ensures ByteAt(WriteInode(d, ino, v), inode, pos) == ByteAt(d, inode, pos)
  {
    TableBelowData(ino);
    WriteLeavesOtherBlocks(d, ino, v, inode.direct[pos / BLOCK_SIZE]);
  }

  /** Claiming a clear bit for a new direct pointer keeps the pointers owned. */
  lemma {:induction false} OwnsAfterClaim(inode: Inode, bm: seq<bool>, sb: nat, k: nat)
    requires OwnsBlocks(inode, bm) && sb < NUM_DIRECT && inode.direct[sb] == UNALLOCATED
    requires k < |bm| && D_START_BLK + k < MAX_DNUM && !bm[k]
    ensures OwnsBlocks(inode.(direct := inode.direct[sb := D_START_BLK + k]), bm[k := true])
  {
    var ni := inode.(direct := inode.direct[sb := D_START_BLK + k]);
    forall j, l | 0 <= j < l < NUM_DIRECT && ni.direct[j] != UNALLOCATED
      ensures ni.direct[j] != ni.direct[l]
    {
      if j != sb && l != sb {
        assert ni.direct[j] == inode.direct[j];
      }
    }
  }

  /** Every direct pointer `f` had set is still set, to the same block, in `inode`. */
  predicate KeepsAllocated(f: Inode, inode: Inode) {
    forall j :: 0 <= j < NUM_DIRECT && f.direct[j] != UNALLOCATED ==> inode.direct[j] == f.direct[j]
  }

  /** `s` is what the file holds from `offset` on. */
  predicate ReadsAs(d: Disk, inode: Inode, offset: nat, s: seq<byte>) {
    offset + |s| <= DIRECT_BYTES && forall q :: 0 <= q < |s| ==> s[q] == ByteAt(d, inode, offset + q)
  }

  /** The offset argument split into the block it starts in and the offset inside that block. */
  method SplitOffset(offset: nat) returns (blk: nat, loc: nat)
    ensures blk * BLOCK_SIZE + loc == offset && loc < BLOCK_SIZE
  {
    blk, loc := offset / BLOCK_SIZE, offset % BLOCK_SIZE;
  }

  /** Copying the next piece of block sb, starting at loc, extends what was read so far. */
  lemma {:induction false} ReadMore(d: Disk, inode: Inode, offset: nat, s: seq<byte>, sb: nat, loc: nat, limit: nat)
    requires ReadsAs(d, inode, offset, s) && sb < NUM_DIRECT && sb * BLOCK_SIZE + loc == offset + |s|
    requires loc + limit <= BLOCK_SIZE && offset + |s| + limit <= DIRECT_BYTES
    ensures ReadsAs(d, inode, offset, s + BytesOf(Get(d, inode.direct[sb]))[loc..loc + limit])
  {
    var block := BytesOf(Get(d, inode.direct[sb]));
    var t := s + block[loc..loc + limit];
    forall q | 0 <= q < |t|
      ensures t[q] == ByteAt(d, inode, offset + q)
    {
      if q >= |s| {
        BytePosition(sb, loc + q - |s|);
      }
    }
  }

  /** What was read is the range of the file asked for. */
  lemma ReadsAsRange(d: Disk, inode: Inode, offset: nat, s: seq<byte>)
    requires ReadsAs(d, inode, offset, s)
    ensures s == ReadRange(d, inode, offset, |s|)
  {
  }

  /** Every byte of `inode` outside [lo, hi) whose block `f` had already allocated is the
      byte `f` held in `d0`. */
  predicate KeptOutside(d0: Disk, f: Inode, d: Disk, inode: Inode, lo: nat, hi: nat) {
    forall p: nat :: p < DIRECT_BYTES && !(lo <= p < hi) && f.direct[p / BLOCK_SIZE] != UNALLOCATED ==>
      ByteAt(d, inode, p) == ByteAt(d0, f, p)
  }

  /** Every byte outside block sb is as it was. */
  predicate OtherBlocksKept(d0: Disk, i0: Inode, d: Disk, inode: Inode, sb: nat) {
    forall p: nat :: p < DIRECT_BYTES && p / BLOCK_SIZE != sb ==> ByteAt(d, inode, p) == ByteAt(d0, i0, p)
  }

  /** One block written at sb, loc extends the written prefix of the buffer and keeps the
      bytes outside it. */
  lemma {:induction false} WriteMore(d0: Disk, f: Inode, d1: Disk, i1: Inode, d: Disk, ni: Inode,
                                     offset: nat, buffer: seq<byte>, n: nat, sb: nat, loc: nat, limit: nat,
                                     src: seq<byte>)
    requires n + limit <= |buffer| && offset + n + limit <= DIRECT_BYTES
    requires sb < NUM_DIRECT && loc + limit <= BLOCK_SIZE && sb * BLOCK_SIZE + loc == offset + n
    requires n > 0 ==> loc == 0
    requires ReadsAs(d1, i1, offset, buffer[..n]) && KeptOutside(d0, f, d1, i1, offset, offset + n)
    requires KeepsAllocated(f, i1)
    requires src == buffer[n..n + limit]
    requires ReadsAs(d, ni, sb * BLOCK_SIZE + loc, src) && OtherBlocksKept(d1, i1, d, ni, sb)
    requires i1.direct[sb] != UNALLOCATED ==>
      KeptOutside(d1, i1, d, ni, sb * BLOCK_SIZE + loc, sb * BLOCK_SIZE + loc + |src|)
    ensures ReadsAs(d, ni, offset, buffer[..n + limit]) && KeptOutside(d0, f, d, ni, offset, offset + n + limit)
  {
    var t := buffer[..n + limit];
    forall q | 0 <= q < |t|
      ensures t[q] == ByteAt(d, ni, offset + q)
    {
      if q < n {
        BeforeBlock(offset + q, sb);
        assert buffer[..n][q] == t[q];
      } else {
        assert buffer[n..n + limit][q - n] == t[q];
      }
    }
    forall p: nat | p < DIRECT_BYTES && !(offset <= p < offset + n + limit) && f.direct[p / BLOCK_SIZE] != UNALLOCATED
      ensures ByteAt(d, ni, p) == ByteAt(d0, f, p)
    {
      if p / BLOCK_SIZE != sb {
        assert ByteAt(d, ni, p) == ByteAt(d1, i1, p);
      } else {
        assert i1.direct[sb] == f.direct[sb];
        assert ByteAt(d, ni, p) == ByteAt(d1, i1, p);
      }
    }
  }

  /** The closing writei of rufs_write, with the new size, leaves the file's bytes. */
  lemma {:induction false} SizeWriteKeepsBytes(d0: Disk, f: Inode, d: Disk, inode: Inode, bm: seq<bool>,
                                               offset: nat, buffer: seq<byte>, size: nat)
    requires inode.ino < MAX_INUM && OwnsBlocks(inode, bm)
    requires ReadsAs(d, inode, offset, buffer) && KeptOutside(d0, f, d, inode, offset, offset + |buffer|)
    ensures var v := inode.(size := size);
      var d' := WriteInode(d, inode.ino, v);
      && ReadRange(d', v, offset, |buffer|) == buffer
      && KeptOutside(d0, f, d', v, offset, offset + |buffer|)
  {
    var v := inode.(size := size);
    var d' := WriteInode(d, inode.ino, v);
    forall p: nat | p < DIRECT_BYTES
      ensures ByteAt(d', v, p) == ByteAt(d, inode, p)
    {
      InodeWriteKeepsBytes(d, v, v.ino, v, p);
    }
    assert ReadsAs(d', v, offset, buffer);
    ReadsAsRange(d', v, offset, buffer);
  }

  /** The block write of rufs_write: block sb of a file with owned pointers, read, with `src`
      copied in at `loc`, and written back. The bytes written read back, every other byte of
      that block is kept, and no other block changes. */
  lemma {:induction false} StoreBlock(d: Disk, inode: Inode, bm: seq<bool>, sb: nat, loc: nat, src: seq<byte>)
    requires OwnsBlocks(inode, bm) && sb < NUM_DIRECT && inode.direct[sb] != UNALLOCATED
    requires loc + |src| <= BLOCK_SIZE
    ensures var blk := inode.direct[sb];
      var d' := d[blk := DataBlk(Splice(BytesOf(Get(d, blk)), loc, src))];
      && ReadsAs(d', inode, sb * BLOCK_SIZE + loc, src)
      && OtherBlocksKept(d, inode, d', inode, sb)
      && KeptOutside(d, inode, d', inode, sb * BLOCK_SIZE + loc, sb * BLOCK_SIZE + loc + |src|)
  {
    var blk := inode.direct[sb];
    var block := Splice(BytesOf(Get(d, blk)), loc, src);
    var d' := d[blk := DataBlk(block)];
    assert forall j :: 0 <= j < NUM_DIRECT && j != sb ==> inode.direct[j] != inode.direct[sb];
    forall p: nat | p < DIRECT_BYTES
      ensures p / BLOCK_SIZE != sb ==> ByteAt(d', inode, p) == ByteAt(d, inode, p)
      ensures p / BLOCK_SIZE == sb ==> ByteAt(d', inode, p) == block[p % BLOCK_SIZE]
    {
      StoreBytes(d, inode, sb, block, p);
    }
    forall q | 0 <= q < |src|
      ensures ByteAt(d', inode, sb * BLOCK_SIZE + loc + q) == src[q]
    {
      BytePosition(sb, loc + q);
    }
    forall p: nat | p < DIRECT_BYTES && !(sb * BLOCK_SIZE + loc <= p < sb * BLOCK_SIZE + loc + |src|)
      && inode.direct[p / BLOCK_SIZE] != UNALLOCATED
      ensures ByteAt(d', inode, p) == ByteAt(d, inode, p)
    {
      if p / BLOCK_SIZE == sb {
        BytePosition(sb, p % BLOCK_SIZE);
      }
    }
  }

  /** Keeping the bytes outside block sb composes. */
  lemma OtherBlocksChain(d0: Disk, i0: Inode, d1: Disk, i1: Inode, d2: Disk, i2: Inode, sb: nat)
    requires OtherBlocksKept(d0, i0, d1, i1, sb) && OtherBlocksKept(d1, i1, d2, i2, sb)
    ensures OtherBlocksKept(d0, i0, d2, i2, sb)
  {
  }
}
