/** The layout of a directory's entries over its blocks, and what a lookup sees.

    Entry j of a directory lives in logical block j / 19 at slot j % 19. Logical blocks 0..15
    are the direct pointers; logical block 16 + g * 1024 + k is entry k of the pointer block
    named by indirect pointer g. */
module Directory {
  import opened Layout
  import opened InodeStore

  /** The entry count the code derives from the size field. */
  function Count(inode: Inode): nat {
    inode.size / DIRENT_SIZE
  }

  /** How many blocks n packed entries occupy. */
  function BlocksFor(n: nat): nat {
    (n + DIRENTS_PER_BLOCK - 1) / DIRENTS_PER_BLOCK
  }

  function GroupOf(lb: nat): (g: nat)
    requires NUM_DIRECT <= lb < MAX_LBLOCKS
    ensures g < NUM_INDIRECT
  {
    (lb - NUM_DIRECT) / PTRS_PER_BLOCK
  }

  function IndexInGroup(lb: nat): (k: nat)
    requires NUM_DIRECT <= lb
    ensures k < PTRS_PER_BLOCK
  {
    (lb - NUM_DIRECT) % PTRS_PER_BLOCK
  }

  /** The block number behind logical block lb. */
  function PtrAt(d: Disk, inode: Inode, lb: nat): int
    requires lb < MAX_LBLOCKS
  {
    if lb < NUM_DIRECT then inode.direct[lb]
    else PtrsOf(Get(d, inode.indirect[GroupOf(lb)]))[IndexInGroup(lb)]
  }

  /** Entry j, read from its block and slot whatever the pointers hold. */
  function EntryAt(d: Disk, inode: Inode, j: nat): Dirent
    requires j < MAX_ENTRIES
  {
    DirentsOf(Get(d, PtrAt(d, inode, j / DIRENTS_PER_BLOCK)))[j % DIRENTS_PER_BLOCK]
  }

  /** The comparison of dir_find: same length and the same first `len` characters. */
  predicate Matches(e: Dirent, name: seq<char>) {
    e.len == |name| && |name| <= |e.name| && e.name[..|name|] == name
  }

  /** The first index at or after j whose entry matches. */
  function FindFrom(s: seq<Dirent>, name: seq<char>, j: nat): (r: Option<nat>)
    requires j <= |s|
    decreases |s| - j
    ensures r.Some? ==> j <= r.value < |s| && Matches(s[r.value], name)
    ensures r.Some? ==> forall k :: j <= k < r.value ==> !Matches(s[k], name)
    ensures r.None? ==> forall k :: j <= k < |s| ==> !Matches(s[k], name)
  {
    if j == |s| then None
    else if Matches(s[j], name) then Some(j)
    else FindFrom(s, name, j + 1)
  }

  function Find(s: seq<Dirent>, name: seq<char>): Option<nat> {
    FindFrom(s, name, 0)
  }

  /** The number of leading allocated pointers from position i on. */
  function LeadingSet(ptrs: seq<int>, i: nat): (r: nat)
    requires i <= |ptrs|
    decreases |ptrs| - i
    ensures i <= r <= |ptrs|
    ensures forall k :: i <= k < r ==> ptrs[k] != UNALLOCATED
    ensures r < |ptrs| ==> ptrs[r] == UNALLOCATED
  {
    if i == |ptrs| || ptrs[i] == UNALLOCATED then i else LeadingSet(ptrs, i + 1)
  }

  /** How many entries the dir_find scan reaches: it stops at the count, at the first
      unallocated direct pointer, and at the first unallocated indirect pointer. */
  function ScanLimit(inode: Inode): (n: nat)
    ensures n <= Count(inode) && n <= MAX_ENTRIES
  {
    var r := LeadingSet(inode.direct, 0);
    if r < NUM_DIRECT then Min(Count(inode), r * DIRENTS_PER_BLOCK)
    else Min(Count(inode), (NUM_DIRECT + LeadingSet(inode.indirect, 0) * PTRS_PER_BLOCK) * DIRENTS_PER_BLOCK)
  }

  /** The entries the scan reads, in the order it reads them. */
  function Scanned(d: Disk, inode: Inode): seq<Dirent> {
    seq(ScanLimit(inode), j requires 0 <= j < ScanLimit(inode) => EntryAt(d, inode, j))
  }

  /** The live entries of a directory: the first size / sizeof(dirent) packed entries. */
  function Entries(d: Disk, inode: Inode): seq<Dirent> {
    var n := Min(Count(inode), MAX_ENTRIES);
    seq(n, j requires 0 <= j < n => EntryAt(d, inode, j))
  }

  /** What dir_find reports for directory inode `ino`. */
  function Lookup(d: Disk, ino: nat, name: seq<char>): Option<Dirent> {
    var s := Scanned(d, ReadInode(d, ino));
    match Find(s, name)
    case Some(j) => Some(s[j])
    case None => None
  }

  /** The first match: an index that matches with none before it. */
  lemma {:induction false} FindFirst(s: seq<Dirent>, name: seq<char>, j: nat)
    requires j < |s| && Matches(s[j], name)
    requires forall k :: 0 <= k < j ==> !Matches(s[k], name)
    ensures Find(s, name) == Some(j)
  {
    var r := FindFrom(s, name, 0);
    assert r.Some?;
    assert !(r.value < j) && !(j < r.value);
  }

  lemma {:induction false} FindNone(s: seq<Dirent>, name: seq<char>)
    requires forall k :: 0 <= k < |s| ==> !Matches(s[k], name)
    ensures Find(s, name) == None
  {
  }

  /** Facts about the leading run of allocated pointers. */
  lemma LeadingAtLeast(ptrs: seq<int>, m: nat)
    requires m <= |ptrs| && forall k :: 0 <= k < m ==> ptrs[k] != UNALLOCATED
    ensures LeadingSet(ptrs, 0) >= m
  {
  }

  lemma LeadingExactly(ptrs: seq<int>, m: nat)
    requires m < |ptrs| && ptrs[m] == UNALLOCATED && forall k :: 0 <= k < m ==> ptrs[k] != UNALLOCATED
    ensures LeadingSet(ptrs, 0) == m
  {
  }

  // Steps of the dir_find scan, stated once for the loops that perform it.

  /** Scanning direct block `lb` stays within the scan limit. */
  lemma ScanDirectStep(inode: Inode, lb: nat)
    requires lb < NUM_DIRECT && forall k :: 0 <= k <= lb ==> inode.direct[k] != UNALLOCATED
    ensures Min((lb + 1) * DIRENTS_PER_BLOCK, Count(inode)) <= ScanLimit(inode)
  {
    LeadingAtLeast(inode.direct, lb + 1);
  }

  /** Scanning entry k of pointer block g stays within the scan limit. */
  lemma ScanIndirectStep(inode: Inode, g: nat, k: nat)
    requires g < NUM_INDIRECT && k < PTRS_PER_BLOCK
    requires forall l :: 0 <= l < NUM_DIRECT ==> inode.direct[l] != UNALLOCATED
    requires forall h :: 0 <= h <= g ==> inode.indirect[h] != UNALLOCATED
    ensures Min((NUM_DIRECT + g * PTRS_PER_BLOCK + k + 1) * DIRENTS_PER_BLOCK, Count(inode))
      <= ScanLimit(inode)
  {
    LeadingAtLeast(inode.direct, NUM_DIRECT);
    LeadingAtLeast(inode.indirect, g + 1);
    var l := LeadingSet(inode.indirect, 0);
    assert NUM_DIRECT + g * PTRS_PER_BLOCK + k + 1 <= NUM_DIRECT + l * PTRS_PER_BLOCK;
  }

  /** The entries a scan reads from block `lb` are the ones the model numbers there. */
  lemma ScanBlockEntries(d: Disk, inode: Inode, lb: nat, consumed: nat, cnt: nat)
    requires lb < MAX_LBLOCKS && cnt <= DIRENTS_PER_BLOCK
    requires cnt > 0 ==> consumed == lb * DIRENTS_PER_BLOCK
    requires consumed + cnt <= ScanLimit(inode)
    ensures forall t :: 0 <= t < cnt ==>
      Scanned(d, inode)[consumed + t] == DirentsOf(Get(d, PtrAt(d, inode, lb)))[t]
  {
    forall t | 0 <= t < cnt
      ensures Scanned(d, inode)[consumed + t] == DirentsOf(Get(d, PtrAt(d, inode, lb)))[t]
    {
      EntryPosition(lb, t);
    }
  }

  /** Where the scan ends: at the count, at an unallocated direct pointer, or after the
      allocated indirect pointers. */
  lemma ScanEnds(inode: Inode, dBlk: nat, lbs: nat)
    requires dBlk <= NUM_DIRECT + NUM_INDIRECT
    requires dBlk < NUM_DIRECT ==> lbs == dBlk && inode.direct[dBlk] == UNALLOCATED
    requires forall k :: 0 <= k < dBlk && k < NUM_DIRECT ==> inode.direct[k] != UNALLOCATED
    requires NUM_DIRECT <= dBlk ==>
      (forall g :: 0 <= g < dBlk - NUM_DIRECT ==> inode.indirect[g] != UNALLOCATED)
      && lbs == NUM_DIRECT + (dBlk - NUM_DIRECT) * PTRS_PER_BLOCK
    requires dBlk < NUM_DIRECT + NUM_INDIRECT && NUM_DIRECT <= dBlk ==>
      inode.indirect[dBlk - NUM_DIRECT] == UNALLOCATED
    ensures ScanLimit(inode) == Min(Count(inode), lbs * DIRENTS_PER_BLOCK)
  {
    if dBlk < NUM_DIRECT {
      LeadingExactly(inode.direct, dBlk);
    } else {
      LeadingAtLeast(inode.direct, NUM_DIRECT);
      if dBlk == NUM_DIRECT + NUM_INDIRECT {
        LeadingAtLeast(inode.indirect, NUM_INDIRECT);
      } else {
        LeadingExactly(inode.indirect, dBlk - NUM_DIRECT);
      }
    }
  }

  /** Logical block 16 + g * 1024 + k is entry k of pointer block g. */
  lemma GroupPosition(g: nat, k: nat)
    requires g < NUM_INDIRECT && k < PTRS_PER_BLOCK
    ensures NUM_DIRECT + g * PTRS_PER_BLOCK + k < MAX_LBLOCKS
    ensures GroupOf(NUM_DIRECT + g * PTRS_PER_BLOCK + k) == g
    ensures IndexInGroup(NUM_DIRECT + g * PTRS_PER_BLOCK + k) == k
  {
  }

  // ---------------------------------------------------------------------------------------
  // A consistent directory.

  /** Block b is a data block whose data-bitmap bit is set. */
  predicate Owned(bm: seq<bool>, b: int) {
    D_START_BLK <= b < MAX_DNUM && b - D_START_BLK < |bm| && bm[b - D_START_BLK]
  }

  const MAX_REFS: nat := NUM_DIRECT + NUM_INDIRECT + (MAX_LBLOCKS - NUM_DIRECT)

  /** The pointer positions a directory owns: its 16 direct and 8 indirect pointers, then
      one position per indirect-addressed block in use. */
  function NumRefs(inode: Inode): (r: nat)
    requires Count(inode) <= MAX_ENTRIES
    ensures NUM_DIRECT + NUM_INDIRECT <= r <= MAX_REFS
  {
    var nb := BlocksFor(Count(inode));
    NUM_DIRECT + NUM_INDIRECT + (if nb > NUM_DIRECT then nb - NUM_DIRECT else 0)
  }

  function Ref(d: Disk, inode: Inode, p: nat): int
    requires p < MAX_REFS
  {
    if p < NUM_DIRECT then inode.direct[p]
    else if p < NUM_DIRECT + NUM_INDIRECT then inode.indirect[p - NUM_DIRECT]
    else PtrAt(d, inode, p - NUM_INDIRECT)
  }

  /** A directory as dir_add and dir_remove keep it: the size is a whole number of entries;
      every block holding live entries, and the pointer block of every group in use, is
      allocated; every allocated pointer names an owned data block, and no two name the same
      block. Blocks past the live ones may stay allocated. */
  predicate DirValid(d: Disk, inode: Inode, bm: seq<bool>) {
    && inode.size % DIRENT_SIZE == 0
    && Count(inode) <= MAX_ENTRIES
    && (forall lb :: 0 <= lb < BlocksFor(Count(inode)) ==> PtrAt(d, inode, lb) != UNALLOCATED)
    && (forall lb :: NUM_DIRECT <= lb < BlocksFor(Count(inode)) ==>
          inode.indirect[GroupOf(lb)] != UNALLOCATED)
    && (forall p :: 0 <= p < NumRefs(inode) && Ref(d, inode, p) != UNALLOCATED ==>
          Owned(bm, Ref(d, inode, p)))
    && (forall p, q :: 0 <= p < q < NumRefs(inode) && Ref(d, inode, p) != UNALLOCATED ==>
          Ref(d, inode, p) != Ref(d, inode, q))
  }

  lemma BlocksCover(n: nat)
    ensures BlocksFor(n) * DIRENTS_PER_BLOCK >= n
    ensures forall j :: 0 <= j < n ==> j / DIRENTS_PER_BLOCK < BlocksFor(n)
  {
  }

  /** On a consistent directory the scan reaches every live entry. */
  lemma {:induction false} ValidScansAll(d: Disk, inode: Inode, bm: seq<bool>)
    requires DirValid(d, inode, bm)
    ensures ScanLimit(inode) == Count(inode)
    ensures Scanned(d, inode) == Entries(d, inode)
  {
    var n := Count(inode);
    var nb := BlocksFor(n);
    BlocksCover(n);
    assert forall lb :: 0 <= lb < nb && lb < NUM_DIRECT ==> inode.direct[lb] != UNALLOCATED by {
      forall lb | 0 <= lb < nb && lb < NUM_DIRECT
        ensures inode.direct[lb] != UNALLOCATED
      {
        assert PtrAt(d, inode, lb) == inode.direct[lb];
      }
    }
    assert forall g :: 0 <= g < NUM_INDIRECT && NUM_DIRECT + g * PTRS_PER_BLOCK < nb ==>
        inode.indirect[g] != UNALLOCATED by {
      forall g | 0 <= g < NUM_INDIRECT && NUM_DIRECT + g * PTRS_PER_BLOCK < nb
        ensures inode.indirect[g] != UNALLOCATED
      {
        assert GroupOf(NUM_DIRECT + g * PTRS_PER_BLOCK) == g;
      }
    }
    var r := LeadingSet(inode.direct, 0);
    if r < NUM_DIRECT {
      assert r * DIRENTS_PER_BLOCK >= nb * DIRENTS_PER_BLOCK;
    } else {
      var g := LeadingSet(inode.indirect, 0);
      if g < NUM_INDIRECT {
        assert (NUM_DIRECT + g * PTRS_PER_BLOCK) * DIRENTS_PER_BLOCK >= nb * DIRENTS_PER_BLOCK;
      }
    }
    assert ScanLimit(inode) == n;
  }

  // ---------------------------------------------------------------------------------------
  // The entry sequence under insertion and removal.

  /** Appending an entry: an existing match still wins; otherwise the new entry is found
      exactly when it matches. */
  lemma {:induction false} FindAppend(s: seq<Dirent>, e: Dirent, name: seq<char>)
    ensures Find(s + [e], name) ==
      if Find(s, name).Some? then Find(s, name)
      else if Matches(e, name) then Some(|s|) else None
  {
    var t := s + [e];
    assert forall k :: 0 <= k < |s| ==> t[k] == s[k];
    match Find(s, name)
    case Some(j) =>
      assert Matches(t[j], name);
    case None =>
      if Matches(e, name) {
        assert Matches(t[|s|], name);
      }
  }

  /** dir_remove's compaction: the last entry moves into the hole and the sequence shrinks. */
  function SwapRemove(s: seq<Dirent>, j: nat): (r: seq<Dirent>)
    requires j < |s|
    ensures |r| == |s| - 1
    ensures forall k :: 0 <= k < |r| && k != j ==> r[k] == s[k]
    ensures j < |r| ==> r[j] == s[|s| - 1]
  {
    s[j := s[|s| - 1]][..|s| - 1]
  }

  /** The compaction loses exactly the removed entry. */
  lemma {:induction false} SwapRemoveMultiset(s: seq<Dirent>, j: nat)
    requires j < |s|
    ensures multiset(SwapRemove(s, j)) == multiset(s) - multiset{s[j]}
  {
    var last := |s| - 1;
    var r := SwapRemove(s, j);
    if j == last {
      assert s == r + [s[j]];
      DropLast(r, s[j]);
    } else {
      SwapRemoveShape(s, j);
      DropMoved(s[..j], s[j + 1..last], s[j], s[last]);
    }
  }

  /** Removing an entry not at the end: the last entry takes its place. */
  lemma SwapRemoveShape(s: seq<Dirent>, j: nat)
    requires j < |s| - 1
    ensures s == s[..j] + [s[j]] + s[j + 1..|s| - 1] + [s[|s| - 1]]
    ensures SwapRemove(s, j) == s[..j] + [s[|s| - 1]] + s[j + 1..|s| - 1]
  {
    var r, t := SwapRemove(s, j), s[..j] + [s[|s| - 1]] + s[j + 1..|s| - 1];
    assert |r| == |t|;
    forall k | 0 <= k < |r|
      ensures r[k] == t[k]
    {
    }
    assert s == s[..j] + [s[j]] + s[j + 1..|s| - 1] + [s[|s| - 1]];
  }

  lemma DropLast<T>(a: seq<T>, x: T)
    ensures multiset(a) == multiset(a + [x]) - multiset{x}
  {
    assert multiset(a + [x]) == multiset(a) + multiset{x};
  }

  lemma DropMoved<T>(a: seq<T>, b: seq<T>, x: T, y: T)
    ensures multiset(a + [y] + b) == multiset(a + [x] + b + [y]) - multiset{x}
  {
    assert multiset(a + [y] + b) == multiset(a) + multiset{y} + multiset(b);
    assert multiset(a + [x] + b + [y]) == multiset(a) + multiset{x} + multiset(b) + multiset{y};
  }

  /** After the compaction a name is present exactly when some entry other than the
      removed one carried it. */
  lemma {:induction false} SwapRemovePresence(s: seq<Dirent>, j: nat, name: seq<char>)
    requires j < |s|
    ensures Find(SwapRemove(s, j), name).Some? <==>
      exists k :: 0 <= k < |s| && k != j && Matches(s[k], name)
  {
    var r := SwapRemove(s, j);
    var last := |s| - 1;
    if Find(r, name).Some? {
      var k := Find(r, name).value;
      if k == j {
        assert Matches(s[last], name) && last != j;
      } else {
        assert Matches(s[k], name);
      }
    }
    if exists k :: 0 <= k < |s| && k != j && Matches(s[k], name) {
      var k :| 0 <= k < |s| && k != j && Matches(s[k], name);
      if k == last {
        assert Matches(r[j], name);
      } else {
        assert Matches(r[k], name);
      }
    }
  }
}
