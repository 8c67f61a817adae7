/** The parts of Python's `str` type that the helpers in utils.py rely on:
    `str.replace`, `str.split` with `[-1]` and `[:-1]`, `sep.join`, deleting the
    characters of a regular-expression class, and the length of the UTF-8 encoding. */
module Strings {

  /** True when `sub` occurs in `s` as a contiguous substring. */
  predicate Occurs(sub: string, s: string)
    decreases |s|
  {
    |sub| <= |s| && (s[..|sub|] == sub || (|s| > 0 && Occurs(sub, s[1..])))
  }

  /** Python's `s.replace(pat, rep)`: one left-to-right scan that replaces every
      non-overlapping occurrence of `pat`. */
  function Replace(s: string, pat: string, rep: string): (r: string)
    requires |pat| > 0
    ensures |rep| <= |pat| ==> |r| <= |s|
    ensures |rep| == |pat| ==> |r| == |s|
    ensures |rep| < |pat| ==> (|r| == |s| <==> !Occurs(pat, s))
    ensures !Occurs(pat, s) ==> r == s
    ensures forall c :: c in r ==> c in s || c in rep
    decreases |s|
  {
    if |s| < |pat| then s
    else if s[..|pat|] == pat then rep + Replace(s[|pat|..], pat, rep)
    else [s[0]] + Replace(s[1..], pat, rep)
  }

  /** A substring that occurs brings its first character along. */
  lemma {:induction false} OccursFirstChar(sub: string, s: string)
    requires |sub| > 0 && Occurs(sub, s)
    ensures sub[0] in s
    decreases |s|
  {
    if s[..|sub|] != sub {
      OccursFirstChar(sub, s[1..]);
    } else {
      assert s[0] == sub[0];
    }
  }

  /** A one-character string occurs exactly where its character does. */
  lemma {:induction false} OccursChar(c: char, s: string)
    ensures Occurs([c], s) <==> c in s
    decreases |s|
  {
    if s != [] {
      OccursChar(c, s[1..]);
      assert s == [s[0]] + s[1..];
    }
  }

  /** Replacing a single character by something that does not contain it leaves
      no occurrence of that character. */
  lemma {:induction false} ReplaceRemovesChar(s: string, c: char, rep: string)
    requires c !in rep
    ensures c !in Replace(s, [c], rep)
    decreases |s|
  {
    if |s| >= 1 {
      ReplaceRemovesChar(s[1..], c, rep);
      if s[..1] != [c] {
        assert s[0] != c;
      }
    }
  }

  /** Concatenation regroups freely. */
  lemma ConcatAssoc<T>(a: seq<T>, b: seq<T>, c: seq<T>)
    ensures a + b + c == a + (b + c)
  {
  }

  /** Slicing a concatenation inside its left operand. */
  lemma SliceConcat(a: string, b: string, k: nat)
    requires k <= |a|
    ensures (a + b)[..k] == a[..k]
    ensures (a + b)[k..] == a[k..] + b
  {
  }

  /** A scan over `a + b` finds the same matches as separate scans over `a` and
      `b` when the first character of `b` cannot be part of a match. */
  lemma {:induction false} ReplaceAppend(a: string, b: string, pat: string, rep: string)
    requires |pat| > 0 && b != [] && b[0] !in pat
    ensures Replace(a + b, pat, rep) == Replace(a, pat, rep) + Replace(b, pat, rep)
    decreases |a|
  {
    var ab := a + b;
    if a == [] {
      assert ab == b;
    } else if |ab| < |pat| {
      assert Replace(ab, pat, rep) == ab;
    } else if |a| < |pat| {
      // Every window starting inside `a` reaches b[0], which `pat` lacks.
      assert ab[|a|] == b[0];
      assert ab[..|pat|][|a|] == b[0];
      SliceConcat(a, b, 1);
      ReplaceAppend(a[1..], b, pat, rep);
      assert Replace(a, pat, rep) == a;
      assert Replace(a[1..], pat, rep) == a[1..];
      ConcatAssoc([a[0]], a[1..], Replace(b, pat, rep));
      assert a == [a[0]] + a[1..];
    } else {
      SliceConcat(a, b, |pat|);
      if a[..|pat|] == pat {
        ReplaceAppend(a[|pat|..], b, pat, rep);
        ConcatAssoc(rep, Replace(a[|pat|..], pat, rep), Replace(b, pat, rep));
      } else {
        SliceConcat(a, b, 1);
        ReplaceAppend(a[1..], b, pat, rep);
        ConcatAssoc([a[0]], Replace(a[1..], pat, rep), Replace(b, pat, rep));
      }
    }
  }

  /** Deletes every character of `drop`, as `re.sub("[...]", "", s)` does for a
      character class. */
  function RemoveChars(s: string, drop: set<char>): (r: string)
    ensures forall c :: c in r <==> c in s && c !in drop
    ensures |r| <= |s|
    ensures |r| == |s| <==> (forall i :: 0 <= i < |s| ==> s[i] !in drop)
    decreases |s|
  {
    if s == [] then []
    else (if s[0] in drop then [] else [s[0]]) + RemoveChars(s[1..], drop)
  }

  lemma {:induction false} RemoveCharsAppend(a: string, b: string, drop: set<char>)
    ensures RemoveChars(a + b, drop) == RemoveChars(a, drop) + RemoveChars(b, drop)
    decreases |a|
  {
    if a == [] {
      assert a + b == b;
    } else {
      assert (a + b)[1..] == a[1..] + b;
      RemoveCharsAppend(a[1..], b, drop);
    }
  }

  /** When nothing is dropped the string comes back unchanged. */
  lemma {:induction false} RemoveCharsNone(s: string, drop: set<char>)
    requires forall i :: 0 <= i < |s| ==> s[i] !in drop
    ensures RemoveChars(s, drop) == s
    decreases |s|
  {
    if s != [] {
      RemoveCharsNone(s[1..], drop);
    }
  }

  /** Python's `s.split(sep)`: always at least one part, and no part holds `sep`. */
  function Split(s: string, sep: char): (parts: seq<string>)
    ensures |parts| >= 1
    ensures forall i :: 0 <= i < |parts| ==> sep !in parts[i]
    decreases |s|
  {
    if s == [] then [[]]
    else
      var rest := Split(s[..|s| - 1], sep);
      if s[|s| - 1] == sep then rest + [[]]
      else rest[..|rest| - 1] + [rest[|rest| - 1] + [s[|s| - 1]]]
  }

  /** Python's `sep.join(parts)`. */
  function Join(sep: char, parts: seq<string>): string
    decreases |parts|
  {
    if |parts| == 0 then []
    else if |parts| == 1 then parts[0]
    else Join(sep, parts[..|parts| - 1]) + [sep] + parts[|parts| - 1]
  }

  /** `s.split(sep)[-1]`: what follows the last `sep`, or all of `s`. */
  function LastSegment(s: string, sep: char): string
  {
    var parts := Split(s, sep);
    parts[|parts| - 1]
  }

  /** `sep.join(s.split(sep)[:-1])`: what precedes the last `sep`, or "". */
  function AllButLastSegment(s: string, sep: char): string
  {
    var parts := Split(s, sep);
    Join(sep, parts[..|parts| - 1])
  }

  /** Joining the parts of a split gives back the string. */
  lemma {:induction false} JoinSplit(s: string, sep: char)
    ensures Join(sep, Split(s, sep)) == s
    decreases |s|
  {
    if s != [] {
      var init, c := s[..|s| - 1], s[|s| - 1];
      var rest := Split(init, sep);
      JoinSplit(init, sep);
      if c == sep {
        assert Split(s, sep) == rest + [[]];
        JoinAppendEmpty(rest, sep);
      } else {
        assert Split(s, sep) == rest[..|rest| - 1] + [rest[|rest| - 1] + [c]];
        JoinExtendLast(rest, sep, c);
      }
      assert s == init + [c];
    }
  }

  /** An empty last part adds a trailing separator to the join. */
  lemma JoinAppendEmpty(parts: seq<string>, sep: char)
    requires |parts| >= 1
    ensures Join(sep, parts + [[]]) == Join(sep, parts) + [sep]
  {
    var ext := parts + [[]];
    assert ext[..|ext| - 1] == parts;
  }

  /** Appending a character to the last part appends it to the join. */
  lemma JoinExtendLast(parts: seq<string>, sep: char, c: char)
    requires |parts| >= 1
    ensures Join(sep, parts[..|parts| - 1] + [parts[|parts| - 1] + [c]]) == Join(sep, parts) + [c]
  {
    var ext := parts[..|parts| - 1] + [parts[|parts| - 1] + [c]];
    if |parts| > 1 {
      assert ext[..|ext| - 1] == parts[..|parts| - 1];
    }
  }

  /** Splitting `a + [sep] + x`, where `x` has no separator, splits `a` and adds `x`. */
  lemma {:induction false} SplitAppend(a: string, sep: char, x: string)
    requires sep !in x
    ensures Split(a + [sep] + x, sep) == Split(a, sep) + [x]
    decreases |x|
  {
    var s := a + [sep] + x;
    if x == [] {
      assert s[..|s| - 1] == a;
    } else {
      var x' := x[..|x| - 1];
      assert s[..|s| - 1] == a + [sep] + x';
      SplitAppend(a, sep, x');
      assert x == x' + [x[|x| - 1]];
    }
  }

  /** A string without the separator splits into itself. */
  lemma {:induction false} SplitNoSep(s: string, sep: char)
    requires sep !in s
    ensures Split(s, sep) == [s]
    decreases |s|
  {
    if s != [] {
      SplitNoSep(s[..|s| - 1], sep);
      assert s == s[..|s| - 1] + [s[|s| - 1]];
    }
  }

  /** Splitting a join of separator-free parts gives back the parts. */
  lemma {:induction false} SplitJoin(parts: seq<string>, sep: char)
    requires |parts| >= 1
    requires forall i :: 0 <= i < |parts| ==> sep !in parts[i]
    ensures Split(Join(sep, parts), sep) == parts
    decreases |parts|
  {
    if |parts| == 1 {
      SplitNoSep(parts[0], sep);
    } else {
      var init := parts[..|parts| - 1];
      SplitJoin(init, sep);
      SplitAppend(Join(sep, init), sep, parts[|parts| - 1]);
      assert init + [parts[|parts| - 1]] == parts;
    }
  }

  /** The split at the last separator: either `s` has a separator and is
      `AllButLastSegment + [sep] + LastSegment`, or it has none and is its own last segment. */
  lemma SplitAtLast(s: string, sep: char)
    ensures sep !in LastSegment(s, sep)
    ensures sep in s ==> s == AllButLastSegment(s, sep) + [sep] + LastSegment(s, sep)
    ensures sep !in s ==> LastSegment(s, sep) == s && AllButLastSegment(s, sep) == []
  {
    var parts := Split(s, sep);
    JoinSplit(s, sep);
    if sep in s {
    } else {
      SplitNoSep(s, sep);
    }
  }

  /** The last segment and what precedes it are determined by any split of `s`
      at a separator followed by separator-free text. */
  lemma LastSegmentOf(a: string, sep: char, x: string)
    requires sep !in x
    ensures LastSegment(a + [sep] + x, sep) == x
    ensures AllButLastSegment(a + [sep] + x, sep) == a
  {
    SplitAppend(a, sep, x);
    var parts := Split(a, sep) + [x];
    assert parts[..|parts| - 1] == Split(a, sep);
    JoinSplit(a, sep);
  }

  /** Number of bytes UTF-8 uses for one code point. */
  function Utf8Width(c: char): (n: nat)
    ensures 1 <= n <= 4
    ensures n == 1 <==> (c as int) < 0x80
  {
    if (c as int) < 0x80 then 1
    else if (c as int) < 0x800 then 2
    else if (c as int) < 0x1_0000 then 3
    else 4
  }

  /** `len(s.encode("utf-8"))`. */
  function Utf8Length(s: string): (n: nat)
    ensures |s| <= n <= 4 * |s|
    ensures n == |s| <==> (forall i :: 0 <= i < |s| ==> (s[i] as int) < 0x80)
    decreases |s|
  {
    if s == [] then 0 else Utf8Width(s[0]) + Utf8Length(s[1..])
  }
}
