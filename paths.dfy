/** How get_node_by_path cuts a path into components, and dir_base_split. */
module Paths {

  predicate NoSlash(s: seq<char>) {
    forall i :: 0 <= i < |s| ==> s[i] != '/'
  }

  /** The components the character loop of get_node_by_path looks up, given the path
      without its first character: the component being read starts at `start` and the loop
      is at position `p`. A '/' ends a component; the last character ends the last one and
      belongs to it, even when it is a '/'. */
  function TokensFrom(t: seq<char>, start: nat, p: nat): (cs: seq<seq<char>>)
    requires start <= p < |t|
    decreases |t| - p
    ensures |cs| >= 1
  {
    if p == |t| - 1 then [t[start..p + 1]]
    else if t[p] == '/' then [t[start..p]] + TokensFrom(t, p + 1, p + 1)
    else TokensFrom(t, start, p + 1)
  }

  /** The components of a path other than "/" whose first character is skipped. */
  function Components(path: seq<char>): seq<seq<char>>
    requires |path| >= 2
  {
    TokensFrom(path[1..], 0, 0)
  }

  /** "/c1/c2/.../cn". */
  function Join(cs: seq<seq<char>>): seq<char> {
    if cs == [] then [] else "/" + cs[0] + Join(cs[1..])
  }

  lemma {:induction false} JoinLength(cs: seq<seq<char>>)
    requires |cs| >= 1 && cs[|cs| - 1] != []
    ensures |Join(cs)| >= |cs| + 1
  {
    if |cs| > 1 {
      JoinLength(cs[1..]);
    }
  }

  lemma {:induction false} TokensOfJoin(t: seq<char>, start: nat, p: nat, cs: seq<seq<char>>)
    requires |cs| >= 1 && (forall i :: 0 <= i < |cs| ==> NoSlash(cs[i])) && cs[|cs| - 1] != []
    requires start <= p < |t| && t[start..] == Join(cs)[1..]
    requires p - start <= |cs[0]|
    ensures TokensFrom(t, start, p) == cs
    decreases |cs|, |cs[0]| - (p - start)
  {
    var c0 := cs[0];
    assert Join(cs)[1..] == c0 + Join(cs[1..]);
    if |cs| > 1 {
      JoinLength(cs[1..]);
    }
    assert forall i :: 0 <= i < |c0| ==> t[start + i] == c0[i];
    assert |cs| > 1 ==> start + |c0| < |t| && t[start + |c0|] == '/';
    if p == |t| - 1 {
      assert |cs| == 1;
      assert cs[1..] == [] && cs == [c0];
      assert t[start..p + 1] == t[start..] == c0;
    } else if t[p] == '/' {
      assert |cs| > 1;
      assert t[start..p] == c0;
      assert t[p + 1..] == Join(cs[1..])[1..];
      TokensOfJoin(t, p + 1, p + 1, cs[1..]);
    } else {
      TokensOfJoin(t, start, p + 1, cs);
    }
  }

  /** Joining '/'-free names whose last one is not empty and then cutting the result gives
      the names back. */
  lemma ComponentsOfJoin(cs: seq<seq<char>>)
    requires |cs| >= 1 && (forall i :: 0 <= i < |cs| ==> NoSlash(cs[i])) && cs[|cs| - 1] != []
    ensures |Join(cs)| >= 2 && Components(Join(cs)) == cs
  {
    JoinLength(cs);
    TokensOfJoin(Join(cs)[1..], 0, 0, cs);
  }

  /** The number of characters after the last '/' of `path` (all of them when it has none). */
  function TrailingName(path: seq<char>): (k: nat)
    ensures k <= |path|
  {
    if |path| == 0 || path[|path| - 1] == '/' then 0 else TrailingName(path[..|path| - 1]) + 1
  }

  /** The last component of a path: what follows its last '/'. */
  function BaseName(path: seq<char>): seq<char> {
    path[|path| - TrailingName(path)..]
  }

  /** The directory part of a path: what precedes the '/' before the base name, or "/"
      when that is empty. */
  function DirName(path: seq<char>): (r: seq<char>)
    ensures |r| >= 1
  {
    var k := TrailingName(path);
    if |path| - k > 1 then path[..|path| - k - 1] else "/"
  }

  /** A '/'-free suffix preceded by a '/' (or by nothing) is the trailing name. */
  lemma {:induction false} TrailingNameIs(path: seq<char>, k: nat)
    requires k <= |path| && NoSlash(path[|path| - k..])
    requires k < |path| ==> path[|path| - k - 1] == '/'
    ensures TrailingName(path) == k
  {
    if k > 0 {
      var init := path[..|path| - 1];
      var tail := path[|path| - k..];
      assert path[|path| - 1] == tail[k - 1];
      assert init[|init| - (k - 1)..] == tail[..k - 1];
      TrailingNameIs(init, k - 1);
    }
  }

  /** The directory part of an absolute path is itself absolute. */
  lemma DirNameAbsolute(path: seq<char>)
    requires |path| >= 1 && path[0] == '/'
    ensures |DirName(path)| >= 1 && DirName(path)[0] == '/'
  {
  }

  /** dir_base_split: the base name is everything after the last '/', the directory name
      everything before it, or "/" when that is empty. */
  method DirBaseSplit(path: seq<char>) returns (dirName: seq<char>, baseName: seq<char>)
    ensures NoSlash(baseName) && |baseName| <= |path|
    ensures baseName == path[|path| - |baseName|..]
    ensures |baseName| < |path| ==> path[|path| - |baseName| - 1] == '/'
    ensures dirName == if |path| - |baseName| > 1 then path[..|path| - |baseName| - 1] else "/"
    ensures dirName != "/" ==> dirName + "/" + baseName == path
    ensures dirName == DirName(path) && baseName == BaseName(path)
  {
    var length := |path|;
    var basenameLen := 0;
    while length > 0 && path[length - 1] != '/'
      invariant 0 <= length <= |path| && basenameLen == |path| - length
      invariant NoSlash(path[length..])
    {
      basenameLen := basenameLen + 1;
      length := length - 1;
    }
    TrailingNameIs(path, basenameLen);
    baseName := path[length..length + basenameLen];
    if length > 1 {
      dirName := path[..length - 1];
      assert dirName + "/" + baseName == path[..length - 1] + path[length - 1..length] + path[length..];
    } else {
      dirName := "/";
    }
  }
}
