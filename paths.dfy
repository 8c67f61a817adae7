/** Python's `posixpath.basename` and `posixpath.dirname`, the two path
    functions utils.py uses to take a file path apart. */
module Paths {
  import opened Strings

  /** `os.sep` on a POSIX system. */
  const Sep: char := '/'

  /** `os.path.basename(p)`: what follows the last separator. */
  function Basename(p: string): string
  {
    LastSegment(p, Sep)
  }

  /** `p[:p.rfind(sep) + 1]`: everything up to and including the last separator. */
  function Head(p: string): string
  {
    if Sep in p then AllButLastSegment(p, Sep) + [Sep] else []
  }

  predicate AllSeparators(s: string)
  {
    forall i :: 0 <= i < |s| ==> s[i] == Sep
  }

  /** `s.rstrip(sep)`. */
  function StripTrailingSeparators(s: string): (r: string)
    ensures |r| <= |s| && r == s[..|r|]
    ensures r == [] || r[|r| - 1] != Sep
    ensures forall i :: |r| <= i < |s| ==> s[i] == Sep
    decreases |s|
  {
    if s != [] && s[|s| - 1] == Sep then StripTrailingSeparators(s[..|s| - 1]) else s
  }

  /** `os.path.dirname(p)`: the head, with its trailing separators removed
      unless it consists of separators only. */
  function Dirname(p: string): string
  {
    var head := Head(p);
    if head != [] && !AllSeparators(head) then StripTrailingSeparators(head) else head
  }

  /** A path is its head followed by its base name, and the base name holds no separator. */
  lemma HeadBasename(p: string)
    ensures Sep !in Basename(p)
    ensures p == Head(p) + Basename(p)
  {
    SplitAtLast(p, Sep);
  }

  /** The directory name is a prefix of the path, and it ends in a separator
      only when it is made of separators alone. */
  lemma DirnameShape(p: string)
    ensures |Dirname(p)| <= |p| && Dirname(p) == p[..|Dirname(p)|]
    ensures Dirname(p) == [] || AllSeparators(Dirname(p)) || Dirname(p)[|Dirname(p)| - 1] != Sep
  {
    HeadBasename(p);
    var head := Head(p);
    assert p[..|head|] == head;
  }

  /** Joining a directory (not ending in a separator) and a name with a separator
      is undone by `dirname` and `basename`. */
  lemma DirnameBasenameOf(d: string, n: string)
    requires d != [] && d[|d| - 1] != Sep && Sep !in n
    ensures Dirname(d + [Sep] + n) == d
    ensures Basename(d + [Sep] + n) == n
  {
    var p := d + [Sep] + n;
    LastSegmentOf(d, Sep, n);
    assert p[|d|] == Sep;
    assert Head(p) == d + [Sep];
    assert !AllSeparators(d + [Sep]) by {
      assert (d + [Sep])[|d| - 1] != Sep;
    }
    assert (d + [Sep])[..|d|] == d;
  }

  /** A separator-free name placed after the head of `p` is the base name of
      the result, and the head stays the same. */
  lemma HeadJoin(p: string, x: string)
    requires Sep !in x
    ensures Head(Head(p) + x) == Head(p)
    ensures Basename(Head(p) + x) == x
  {
    SplitAtLast(p, Sep);
    if Sep in p {
      var a := AllButLastSegment(p, Sep);
      LastSegmentOf(a, Sep, x);
      assert (a + [Sep] + x)[|a|] == Sep;
    } else {
      assert Head(p) + x == x;
      SplitAtLast(x, Sep);
    }
  }
}
