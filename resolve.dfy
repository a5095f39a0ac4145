/** What get_node_by_path finds: the components of a path looked up one after another. */
module Resolution {
  import opened Layout
  import opened InodeStore
  import opened Directory
  import opened Paths

  /** Looking up each component in the directory the previous one named: the inode recorded
      for the entry of the last component, or None at the first component not found. */
  function Resolve(d: Disk, ino: nat, cs: seq<seq<char>>): Option<Inode>
    requires |cs| >= 1
    decreases |cs|
  {
    match Lookup(d, ino, cs[0])
    case None => None
    case Some(e) => if |cs| == 1 then Some(ReadInode(d, e.ino)) else Resolve(d, e.ino, cs[1..])
  }

  /** "/" names the starting inode itself; any other path is resolved component by component. */
  function ResolvePath(d: Disk, path: seq<char>, ino: nat): Option<Inode>
    requires |path| >= 1
  {
    if |path| == 1 then Some(ReadInode(d, ino)) else Resolve(d, ino, Components(path))
  }

  /** The character loop of get_node_by_path, over the path without its first character:
      the component being read is t[start..p + 1] so far and is looked up in directory cur
      when a '/' or the last character closes it. */
  function ResolveChars(d: Disk, cur: nat, t: seq<char>, start: nat, p: nat): Option<Inode>
    requires start <= p < |t|
    decreases |t| - p
  {
    if p == |t| - 1 then
      match Lookup(d, cur, t[start..])
      case None => None
      case Some(e) => Some(ReadInode(d, e.ino))
    else if t[p] == '/' then
      match Lookup(d, cur, t[start..p])
      case None => None
      case Some(e) => ResolveChars(d, e.ino, t, p + 1, p + 1)
    else ResolveChars(d, cur, t, start, p + 1)
  }

  /** One closed component of the character loop: the lookup of the component that ends at
      p decides the outcome, and a '/' hands the rest of the path to the directory found. */
  lemma CloseStep(d: Disk, cur: nat, t: seq<char>, start: nat, p: nat, name: seq<char>)
    requires start <= p < |t| && (p == |t| - 1 || t[p] == '/')
    requires name == t[start..if p == |t| - 1 then |t| else p]
    ensures Lookup(d, cur, name).None? ==> ResolveChars(d, cur, t, start, p) == None
    ensures Lookup(d, cur, name).Some? && p == |t| - 1 ==>
      ResolveChars(d, cur, t, start, p) == Some(ReadInode(d, Lookup(d, cur, name).value.ino))
    ensures Lookup(d, cur, name).Some? && p < |t| - 1 ==>
      ResolveChars(d, cur, t, start, p) == ResolveChars(d, Lookup(d, cur, name).value.ino, t, p + 1, p + 1)
  {
    if p == |t| - 1 {
      assert t[start..|t|] == t[start..];
    }
  }

  /** A slice of a path read through the path without its first character. */
  lemma TailSlice(path: seq<char>, a: nat, b: nat)
    requires 1 <= a <= b <= |path|
    ensures path[a..b] == path[1..][a - 1..b - 1]
  {
    var t := path[1..];
    assert forall k :: 0 <= k < b - a ==> path[a..b][k] == t[a - 1..b - 1][k];
  }

  /** The character loop resolves exactly the components TokensFrom cuts out. */
  lemma {:induction false} ResolveCharsIsResolve(d: Disk, cur: nat, t: seq<char>, start: nat, p: nat)
    requires start <= p < |t|
    ensures ResolveChars(d, cur, t, start, p) == Resolve(d, cur, TokensFrom(t, start, p))
    decreases |t| - p
  {
    if p == |t| - 1 {
      assert t[start..p + 1] == t[start..];
      assert TokensFrom(t, start, p) == [t[start..]];
    } else if t[p] == '/' {
      assert TokensFrom(t, start, p) == [t[start..p]] + TokensFrom(t, p + 1, p + 1);
      match Lookup(d, cur, t[start..p])
      case None =>
      case Some(e) =>
        ResolveCharsIsResolve(d, e.ino, t, p + 1, p + 1);
    } else {
      ResolveCharsIsResolve(d, cur, t, start, p + 1);
    }
  }

  /** The walk as an iteration: the inode number reached after the first k lookups. */
  function Walk(d: Disk, ino: nat, cs: seq<seq<char>>, k: nat): Option<nat>
    requires k <= |cs|
  {
    if k == 0 then Some(ino)
    else match Walk(d, ino, cs, k - 1)
      case None => None
      case Some(i) => match Lookup(d, i, cs[k - 1])
        case None => None
        case Some(e) => Some(e.ino as nat)
  }

  lemma {:induction false} WalkShift(d: Disk, ino: nat, cs: seq<seq<char>>, k: nat)
    requires 1 <= k <= |cs|
    ensures Walk(d, ino, cs, k) ==
      match Lookup(d, ino, cs[0])
      case None => None
      case Some(e) => Walk(d, e.ino, cs[1..], k - 1)
    decreases k
  {
    if k > 1 {
      WalkShift(d, ino, cs, k - 1);
    }
  }

  /** Resolution succeeds exactly when every lookup of the walk does, and then yields the
      inode of the last entry found. */
  lemma {:induction false} ResolveIsWalk(d: Disk, ino: nat, cs: seq<seq<char>>)
    requires |cs| >= 1
    ensures Resolve(d, ino, cs) ==
      match Walk(d, ino, cs, |cs|)
      case None => None
      case Some(i) => Some(ReadInode(d, i))
    decreases |cs|
  {
    WalkShift(d, ino, cs, |cs|);
    match Lookup(d, ino, cs[0])
    case None =>
    case Some(e) =>
      if |cs| > 1 {
        ResolveIsWalk(d, e.ino, cs[1..]);
      }
  }

  /** A path written as "/c1/.../cn" resolves by looking up exactly c1, ..., cn. */
  lemma ResolveJoined(d: Disk, ino: nat, cs: seq<seq<char>>)
    requires |cs| >= 1 && (forall i :: 0 <= i < |cs| ==> NoSlash(cs[i])) && cs[|cs| - 1] != []
    ensures |Join(cs)| >= 2 && ResolvePath(d, Join(cs), ino) == Resolve(d, ino, cs)
  {
    ComponentsOfJoin(cs);
  }
}
