/** `name_format` and `is_name_valid` from example/useless/utils.py: the
    file-name sanitiser and the upload suffix whitelist. */
module Names {
  import opened Strings

  const NoBreakSpace: char := '\U{A0}'
  const IdeographicSpace: char := '\U{3000}'

  /** The characters of the class `[$%^!*<>)(+=`'"/:;,?]` that `name_format` deletes. */
  const Forbidden: set<char> :=
    {'$', '%', '^', '!', '*', '<', '>', ')', '(', '+', '=', '`', '\'', '"', '/', ':', ';', ',', '?'}

  /** The first three replacements: both exotic spaces become ordinary spaces,
      then one pass turns each pair of spaces into a single space. */
  function SpacesCollapsed(name: string): string
  {
    Replace(Replace(Replace(name, [NoBreakSpace], " "), [IdeographicSpace], " "), "  ", " ")
  }

  /** `name_format(name)`. */
  function NameFormat(name: string): (r: string)
    ensures forall c :: c in r ==> c !in Forbidden
    ensures NoBreakSpace !in r && IdeographicSpace !in r
    ensures forall c :: c in r ==> c in name || c == ' '
    ensures |r| <= |name|
  {
    var mapped := Replace(name, [NoBreakSpace], " ");
    ReplaceRemovesChar(name, NoBreakSpace, " ");
    ReplaceRemovesChar(mapped, IdeographicSpace, " ");
    RemoveChars(SpacesCollapsed(name), Forbidden)
  }

  /** A name `name_format` leaves alone. */
  predicate Clean(name: string)
  {
    && NoBreakSpace !in name
    && IdeographicSpace !in name
    && !Occurs("  ", name)
    && forall i :: 0 <= i < |name| ==> name[i] !in Forbidden
  }

  /** Lower-case letters, digits and '.' are never touched by `name_format`. */
  predicate PlainChar(c: char)
  {
    'a' <= c <= 'z' || '0' <= c <= '9' || c == '.'
  }

  lemma PlainCharKept(c: char)
    requires PlainChar(c)
    ensures c !in Forbidden && c != ' ' && c != NoBreakSpace && c != IdeographicSpace
  {
  }

  /** A name made of plain characters only is clean. */
  lemma PlainNameClean(name: string)
    requires forall i :: 0 <= i < |name| ==> PlainChar(name[i])
    ensures Clean(name)
  {
    forall i | 0 <= i < |name|
      ensures name[i] !in Forbidden && name[i] != ' '
    {
      PlainCharKept(name[i]);
    }
    if Occurs("  ", name) {
      OccursFirstChar("  ", name);
    }
  }

  /** A clean name comes back unchanged. */
  lemma NameFormatKeepsClean(name: string)
    requires Clean(name)
    ensures NameFormat(name) == name
  {
    OccursChar(NoBreakSpace, name);
    OccursChar(IdeographicSpace, name);
    RemoveCharsNone(name, Forbidden);
  }

  /** A name that comes back unchanged is clean. */
  lemma NameFormatFixedIsClean(name: string)
    requires NameFormat(name) == name
    ensures Clean(name)
  {
    var m1 := Replace(name, [NoBreakSpace], " ");
    var m2 := Replace(m1, [IdeographicSpace], " ");
    var q := Replace(m2, "  ", " ");
    assert |q| == |m2|;
    assert !Occurs("  ", m2);
    assert |RemoveChars(q, Forbidden)| == |q|;
    RemoveCharsNone(q, Forbidden);
    ReplaceRemovesChar(name, NoBreakSpace, " ");
    ReplaceRemovesChar(m1, IdeographicSpace, " ");
  }

  /** `name_format` returns its argument unchanged exactly when the argument is clean. */
  lemma NameFormatFixedIff(name: string)
    ensures NameFormat(name) == name <==> Clean(name)
  {
    if NameFormat(name) == name {
      NameFormatFixedIsClean(name);
    }
    if Clean(name) {
      NameFormatKeepsClean(name);
    }
  }

  /** Only one pass is made: three spaces become two, so `name_format` is not
      idempotent. */
  lemma NameFormatNotIdempotent()
    ensures NameFormat("   ") == "  "
    ensures NameFormat(NameFormat("   ")) == " "
  {
    assert Replace("   ", [NoBreakSpace], " ") == "   ";
    assert Replace("   ", [IdeographicSpace], " ") == "   ";
    assert Replace("   ", "  ", " ") == "  " by {
      assert "   "[..2] == "  ";
      assert "   "[2..] == " ";
    }
    assert Replace("  ", [NoBreakSpace], " ") == "  ";
    assert Replace("  ", [IdeographicSpace], " ") == "  ";
    assert Replace("  ", "  ", " ") == " " by {
      assert "  "[..2] == "  ";
    }
    assert RemoveChars("  ", Forbidden) == "  " by {
      RemoveCharsNone("  ", Forbidden);
    }
    assert RemoveChars(" ", Forbidden) == " " by {
      RemoveCharsNone(" ", Forbidden);
    }
  }

  /** `name_format` works piecewise across a boundary whose right side starts
      with a character that is neither a space of any kind nor deleted. */
  lemma NameFormatAppend(x: string, t: string)
    requires t != [] && t[0] != ' ' && t[0] != NoBreakSpace && t[0] != IdeographicSpace
    ensures NameFormat(x + t) == NameFormat(x) + NameFormat(t)
  {
    var t1 := Replace(t, [NoBreakSpace], " ");
    var t2 := Replace(t1, [IdeographicSpace], " ");
    ReplaceAppend(x, t, [NoBreakSpace], " ");
    assert t1 == [t[0]] + Replace(t[1..], [NoBreakSpace], " ") by {
      assert t[..1] != [NoBreakSpace];
    }
    var x1 := Replace(x, [NoBreakSpace], " ");
    ReplaceAppend(x1, t1, [IdeographicSpace], " ");
    assert t2 == [t[0]] + Replace(t1[1..], [IdeographicSpace], " ") by {
      assert t1[..1] != [IdeographicSpace];
    }
    var x2 := Replace(x1, [IdeographicSpace], " ");
    ReplaceAppend(x2, t2, "  ", " ");
    RemoveCharsAppend(SpacesCollapsed(x), SpacesCollapsed(t), Forbidden);
  }

  /** A clean tail that starts with '.' passes through `name_format` untouched,
      whatever precedes it. */
  lemma NameFormatCleanTail(x: string, tail: string)
    requires tail != [] && tail[0] == '.' && Clean(tail)
    ensures NameFormat(x + tail) == NameFormat(x) + tail
  {
    NameFormatKeepsClean(tail);
    NameFormatAppend(x, tail);
  }

  /** The suffixes `is_name_valid` accepts, in source order. The tuple is written as
      two set displays joined by `+`, which keeps each display small enough for the
      verifier to decide membership of a literal. */
  const ValidSuffixes: set<string> := ValidSuffixesFirst + ValidSuffixesSecond

  const ValidSuffixesFirst: set<string> := {
    "ppt", "xapk", "ke", "azw", "cpk", "gho", "dwg", "db", "docx", "deb", "e", "ttf",
    "xls", "bat", "crx", "rpm", "txf", "pdf", "apk", "ipa", "txt", "mobi", "osk", "dmg",
    "rp", "osz", "jar", "ttc"
  }

  const ValidSuffixesSecond: set<string> := {
    "z", "w3x", "xlsx", "cetrainer", "ct", "rar", "mp3", "pptx", "mobileconfig", "epub",
    "imazingapp", "doc", "iso", "img", "appimage", "7z", "rplib", "lolgezi", "exe",
    "azw3", "zip", "conf", "tar", "dll", "flac", "xpa", "lua"
  }

  /** `is_name_valid(filename)`: the text after the last '.' is a listed suffix. */
  predicate IsNameValid(filename: string)
  {
    LastSegment(filename, '.') in ValidSuffixes
  }

  /** With a '.', validity depends only on what follows the last one. */
  lemma IsNameValidWithDot(stem: string, suffix: string)
    requires '.' !in suffix
    ensures IsNameValid(stem + "." + suffix) <==> suffix in ValidSuffixes
  {
    LastSegmentOf(stem, '.', suffix);
  }

  /** Without a '.', the whole name is the suffix. */
  lemma IsNameValidWithoutDot(filename: string)
    requires '.' !in filename
    ensures IsNameValid(filename) <==> filename in ValidSuffixes
  {
    SplitAtLast(filename, '.');
  }

  /** A trailing '.' leaves an empty suffix, which is rejected. */
  lemma TrailingDotRejected(stem: string)
    ensures !IsNameValid(stem + ".")
  {
    IsNameValidWithDot(stem, "");
    assert stem + "." + "" == stem + ".";
    assert "" !in ValidSuffixes;
  }

  /** The comparison is case-sensitive. */
  lemma SuffixCaseMatters()
    ensures IsNameValid("a.pdf") && !IsNameValid("a.PDF")
  {
    assert "PDF" !in ValidSuffixes;
    assert "a" + "." + "pdf" == "a.pdf";
    assert "a" + "." + "PDF" == "a.PDF";
    IsNameValidWithDot("a", "pdf");
    IsNameValidWithDot("a", "PDF");
  }
}
