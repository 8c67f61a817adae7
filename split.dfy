/** The size, naming and copy logic of `big_file_split` in
    example/useless/utils.py: cut the next piece of a large file, starting at a
    given byte, into a temporary directory beside the file. */
module Split {
  import opened Strings
  import opened Paths
  import opened Streams
  import opened Names

  /** `chunk_size`: the copy loop moves at most this many bytes per write. */
  const PieceChunk: nat := 524288

  /** The suffixes `get_random_name` chooses from. */
  const PieceSuffixes: seq<string> :=
    ["zip", "rar", "apk", "ipa", "exe", "pdf", "7z", "tar", "deb", "dmg", "rpm", "flac"]

  const LowerLetters: string := "abcdefghijklmnopqrstuvwxyz"
  const DecimalDigits: string := "1234567890"

  /** `tmp_dir`: the parent directory, a separator, "__", and the file name
      without its last extension. */
  function TmpDir(filePath: string): string
  {
    Dirname(filePath) + [Sep] + "__" + AllButLastSegment(Basename(filePath), '.')
  }

  /** For `dir/stem.ext` the temporary directory is `dir/__stem`. */
  lemma TmpDirWithExtension(dir: string, stem: string, ext: string)
    requires dir != [] && dir[|dir| - 1] != Sep
    requires Sep !in stem && Sep !in ext && '.' !in ext
    ensures TmpDir(dir + [Sep] + stem + "." + ext) == dir + [Sep] + "__" + stem
  {
    var name := stem + "." + ext;
    assert Sep !in name;
    assert dir + [Sep] + stem + "." + ext == dir + [Sep] + name;
    DirnameBasenameOf(dir, name);
    LastSegmentOf(stem, '.', ext);
  }

  /** A file name without any '.' gives the bare directory `dir/__`. */
  lemma TmpDirWithoutExtension(dir: string, name: string)
    requires dir != [] && dir[|dir| - 1] != Sep
    requires Sep !in name && '.' !in name
    ensures TmpDir(dir + [Sep] + name) == dir + [Sep] + "__"
  {
    DirnameBasenameOf(dir, name);
    SplitAtLast(name, '.');
  }

  /** A bare file name has an empty `dirname`, so the temporary directory is
      put under the root of the file system rather than beside the file. */
  lemma TmpDirBareName(name: string)
    requires Sep !in name
    ensures TmpDir(name) == [Sep] + "__" + AllButLastSegment(name, '.')
  {
    SplitAtLast(name, Sep);
  }

  /** `big.iso` in the working directory gets the temporary directory `/__big`,
      whose parent is the root. */
  lemma TmpDirAtRoot()
    ensures TmpDir("big.iso") == "/__big"
    ensures Dirname("/__big") == "/"
  {
    BareNameStem();
    RootDirname();
  }

  lemma BareNameStem()
    ensures TmpDir("big.iso") == "/__big"
  {
    assert Sep !in "big.iso";
    TmpDirBareName("big.iso");
    StemOfBigIso();
  }

  lemma StemOfBigIso()
    ensures AllButLastSegment("big.iso", '.') == "big"
  {
    assert "big.iso" == "big" + ['.'] + "iso";
    LastSegmentOf("big", '.', "iso");
  }

  lemma RootDirname()
    ensures Dirname("/__big") == "/"
  {
    assert "/__big" == [] + [Sep] + "__big";
    LastSegmentOf([], Sep, "__big");
  }

  /** `tmp_dir` as evidently intended: "__" and the file name without its last
      extension, in the file's own directory (the working directory for a bare
      name). */
  function TmpDirBeside(filePath: string): string
  {
    Head(filePath) + "__" + AllButLastSegment(Basename(filePath), '.')
  }

  /** The corrected temporary directory lies in the file's directory and is
      named "__" and the stem. */
  lemma TmpDirBesideStays(filePath: string)
    ensures Dirname(TmpDirBeside(filePath)) == Dirname(filePath)
    ensures Basename(TmpDirBeside(filePath)) == "__" + AllButLastSegment(Basename(filePath), '.')
  {
    var name := Basename(filePath);
    var stem := AllButLastSegment(name, '.');
    HeadBasename(filePath);
    SplitAtLast(name, '.');
    assert Sep !in stem by {
      if '.' in name {
        assert forall i :: 0 <= i < |stem| ==> stem[i] == name[i];
      }
    }
    assert Sep !in "__" + stem;
    ConcatAssoc(Head(filePath), "__", stem);
    HeadJoin(filePath, "__" + stem);
  }

  /** Where the file has a directory that does not end in a separator, the
      corrected temporary directory is the source's. */
  lemma TmpDirBesideAgrees(dir: string, name: string)
    requires dir != [] && dir[|dir| - 1] != Sep && Sep !in name
    ensures TmpDirBeside(dir + [Sep] + name) == TmpDir(dir + [Sep] + name)
  {
    var p := dir + [Sep] + name;
    DirnameBasenameOf(dir, name);
    LastSegmentOf(dir, Sep, name);
    assert p[|dir|] == Sep;
  }

  /** `tmp_file_size`: the random size, cut down to what is left after `start_byte`. */
  function PieceSize(fileSize: int, startByte: int, randomSize: int): (size: int)
    ensures size <= fileSize - startByte && size <= randomSize
    ensures size == fileSize - startByte || size == randomSize
  {
    var leftSize := fileSize - startByte;
    if leftSize > randomSize then randomSize else leftSize
  }

  /** `random.sample(pool, k)`: `k` distinct characters of `pool`. */
  predicate IsSample(pool: string, k: nat, s: string)
  {
    && |s| == k
    && (forall i :: 0 <= i < |s| ==> s[i] in pool)
    && (forall i, j :: 0 <= i < j < |s| ==> s[i] != s[j])
  }

  /** `file_name.replace(".", "").replace(" ", "")`. */
  function NameLetters(fileName: string): string
  {
    Replace(Replace(fileName, ".", ""), " ", "")
  }

  /** What `get_random_name` draws before `name_format`: the letters of the file
      name, three sampled letters and two sampled digits, shuffled. */
  predicate IsRandomDraw(fileName: string, letters: string, digits: string, shuffled: string)
  {
    && IsSample(LowerLetters, 3, letters)
    && IsSample(DecimalDigits, 2, digits)
    && multiset(shuffled) == multiset(NameLetters(fileName) + letters + digits)
  }

  /** `get_random_name()`, given the shuffled characters and the chosen suffix. */
  function PieceName(shuffled: string, suffix: string): string
  {
    NameFormat(shuffled + "." + suffix)
  }

  lemma PieceSuffixesPlain(suffix: string)
    requires suffix in PieceSuffixes
    ensures forall i :: 0 <= i < |suffix| ==> PlainChar(suffix[i])
  {
  }

  /** A '.' followed by one of the suffixes is left alone by `name_format`. */
  lemma PieceTailClean(suffix: string)
    requires suffix in PieceSuffixes
    ensures Clean("." + suffix)
  {
    var tail := "." + suffix;
    PieceSuffixesPlain(suffix);
    assert forall i :: 0 <= i < |tail| ==> PlainChar(tail[i]);
    PlainNameClean(tail);
  }

  /** Every suffix of the random names is on the upload whitelist. */
  lemma PieceSuffixAccepted(suffix: string)
    requires suffix in PieceSuffixes
    ensures suffix in ValidSuffixes && '.' !in suffix
  {
  }

  /** What follows the '.' joining a stem and a dot-free suffix is that suffix. */
  lemma SuffixAfterDot(stem: string, suffix: string)
    requires '.' !in suffix
    ensures LastSegment(stem + "." + suffix, '.') == suffix
  {
    assert stem + "." + suffix == stem + ['.'] + suffix;
    LastSegmentOf(stem, '.', suffix);
  }

  /** `name_format` leaves the '.' and the chosen suffix of the random name alone. */
  lemma PieceNameParts(shuffled: string, suffix: string)
    requires suffix in PieceSuffixes
    ensures PieceName(shuffled, suffix) == NameFormat(shuffled) + "." + suffix
  {
    PieceTailClean(suffix);
    ConcatAssoc(shuffled, ".", suffix);
    ConcatAssoc(NameFormat(shuffled), ".", suffix);
    NameFormatCleanTail(shuffled, "." + suffix);
  }

  /** The random name is accepted by `is_name_valid`, ends in the chosen suffix
      after its only '.', and holds no path separator. */
  lemma PieceNameValid(fileName: string, letters: string, digits: string, shuffled: string, suffix: string)
    requires IsRandomDraw(fileName, letters, digits, shuffled)
    requires suffix in PieceSuffixes
    ensures PieceName(shuffled, suffix) == NameFormat(shuffled) + "." + suffix
    ensures '.' !in NameFormat(shuffled)
    ensures LastSegment(PieceName(shuffled, suffix), '.') == suffix
    ensures IsNameValid(PieceName(shuffled, suffix))
    ensures Sep !in PieceName(shuffled, suffix)
  {
    PieceNameParts(shuffled, suffix);
    NoDotInDraw(fileName, letters, digits, shuffled);
    PieceSuffixAccepted(suffix);
    SuffixAfterDot(NameFormat(shuffled), suffix);
    assert Sep in Forbidden;
  }

  /** The file name's letters, as `get_random_name` keeps them, hold no '.'. */
  lemma NoDotInNameLetters(fileName: string)
    ensures '.' !in NameLetters(fileName)
  {
    ReplaceRemovesChar(fileName, '.', "");
  }

  /** The shuffled characters hold no '.', so neither does their formatted form. */
  lemma NoDotInDraw(fileName: string, letters: string, digits: string, shuffled: string)
    requires IsRandomDraw(fileName, letters, digits, shuffled)
    ensures '.' !in shuffled && '.' !in NameFormat(shuffled)
  {
    NoDotInNameLetters(fileName);
    assert '.' !in LowerLetters && '.' !in DecimalDigits;
    assert '.' !in letters && '.' !in digits;
    var all := NameLetters(fileName) + letters + digits;
    assert multiset(all)['.'] == 0;
  }

  /** The writes the copy loop makes with `left` bytes still to move and the
      file at `pos`: each round reads `min(left, PieceChunk)` bytes, which ends
      the loop when fewer than `PieceChunk` were left. */
  function PieceWrites(src: seq<byte>, pos: nat, left: int): seq<seq<byte>>
    decreases left
  {
    if left <= 0 then []
    else
      var chunk := ReadAt(src, pos, Min(left, PieceChunk));
      [chunk] + PieceWrites(src, pos + |chunk|, left - Min(left, PieceChunk))
  }

  /** A round with at least `PieceChunk` bytes left reads a full chunk and goes on. */
  lemma PieceWritesFull(src: seq<byte>, pos: nat, left: int)
    requires left >= PieceChunk
    ensures var chunk := ReadAt(src, pos, PieceChunk);
      PieceWrites(src, pos, left) == [chunk] + PieceWrites(src, pos + |chunk|, left - PieceChunk)
  {
  }

  /** A round with fewer than `PieceChunk` bytes left is the last one. */
  lemma PieceWritesShort(src: seq<byte>, pos: nat, left: int)
    requires 0 < left < PieceChunk
    ensures PieceWrites(src, pos, left) == [ReadAt(src, pos, left)]
  {
    var chunk := ReadAt(src, pos, left);
    assert PieceWrites(src, pos + |chunk|, 0) == [];
  }

  /** The bytes of the loop's writes: the first read, then the bytes of the
      writes that follow it. */
  lemma PieceWritesFirst(src: seq<byte>, pos: nat, left: int)
    requires left > 0
    ensures var chunk := ReadAt(src, pos, Min(left, PieceChunk));
      Flatten(PieceWrites(src, pos, left)) == chunk + Flatten(PieceWrites(src, pos + |chunk|, left - Min(left, PieceChunk)))
  {
    var n := Min(left, PieceChunk);
    var chunk := ReadAt(src, pos, n);
    var rest := PieceWrites(src, pos + |chunk|, left - n);
    assert PieceWrites(src, pos, left) == [chunk] + rest;
    FlattenCons(chunk, rest);
  }

  /** The loop's writes hold the `left` bytes from `pos`: fewer at the end of
      the file, none for `left <= 0`. */
  lemma {:induction false} PieceWritesBytes(src: seq<byte>, pos: nat, left: int)
    ensures Flatten(PieceWrites(src, pos, left)) == ReadAt(src, pos, if left > 0 then left else 0)
    decreases left
  {
    if left > 0 {
      var n := Min(left, PieceChunk);
      var chunk := ReadAt(src, pos, n);
      PieceWritesFirst(src, pos, left);
      PieceWritesBytes(src, pos + |chunk|, left - n);
      ReadAtThenRead(src, pos, n, left - n);
      assert n + (left - n) == left;
    }
  }

  /** The loop makes one write per started block of `PieceChunk` bytes. */
  lemma {:induction false} PieceWritesCount(src: seq<byte>, pos: nat, left: int)
    ensures |PieceWrites(src, pos, left)| == Rounds(left, PieceChunk)
    decreases left
  {
    if left > 0 {
      var n := Min(left, PieceChunk);
      var chunk := ReadAt(src, pos, n);
      PieceWritesCount(src, pos + |chunk|, left - n);
      RoundsStep(left, PieceChunk, n);
    }
  }

  /** Every write holds at most `PieceChunk` bytes, and inside the file every
      write but the last holds exactly that many. */
  lemma {:induction false} PieceWritesBounds(src: seq<byte>, pos: nat, left: int)
    ensures AtMost(PieceWrites(src, pos, left), PieceChunk)
    ensures pos + left <= |src| ==> FullButLast(PieceWrites(src, pos, left), PieceChunk)
    decreases left
  {
    if left > 0 {
      var n := Min(left, PieceChunk);
      var chunk := ReadAt(src, pos, n);
      var rest := PieceWrites(src, pos + |chunk|, left - n);
      PieceWritesBounds(src, pos + |chunk|, left - n);
      BoundsCons(chunk, rest, PieceChunk);
      if left - n <= 0 {
        assert rest == [];
      }
    }
  }

  /** The copy loop of `big_file_split`: after `seek(start)`, move `size` bytes
      in writes of at most `PieceChunk` bytes; `writes` lists what each
      `small_file.write` call received and `pos` is the position of the big
      file. */
  method CopyPiece(src: seq<byte>, start: nat, size: int) returns (written: seq<byte>, writes: seq<seq<byte>>)
    ensures writes == PieceWrites(src, start, size)
    ensures written == Flatten(writes)
    ensures written == ReadAt(src, start, if size > 0 then size else 0)
  {
    var leftReadSize := size;
    var pos: nat := start;
    writes := [];
    while leftReadSize > 0
      invariant writes + PieceWrites(src, pos, leftReadSize) == PieceWrites(src, start, size)
    {
      if leftReadSize < PieceChunk {
        var chunk := ReadAt(src, pos, leftReadSize);
        PieceWritesShort(src, pos, leftReadSize);
        writes := writes + [chunk];
        pos := pos + |chunk|;
        break;
      }
      var chunk := ReadAt(src, pos, PieceChunk);
      PieceWritesFull(src, pos, leftReadSize);
      ConcatAssoc(writes, [chunk], PieceWrites(src, pos + |chunk|, leftReadSize - PieceChunk));
      writes := writes + [chunk];
      pos := pos + |chunk|;
      leftReadSize := leftReadSize - PieceChunk;
    }
    PieceWritesBytes(src, start, size);
    written := Flatten(writes);
  }

  /** A piece of `size` bytes from `start` holds the slice of the file it
      covers, or nothing for an empty or negative size. */
  predicate IsPieceOf(data: seq<byte>, start: int, size: int, content: seq<byte>)
  {
    (size > 0 ==> 0 <= start && start + size <= |data| && content == data[start..start + size]) &&
    (size <= 0 ==> content == [])
  }

  /** The bytes the piece file receives. */
  method WritePiece(data: seq<byte>, start: nat, size: int) returns (content: seq<byte>)
    requires size <= |data| - start
    ensures IsPieceOf(data, start, size, content)
  {
    var writes;
    content, writes := CopyPiece(data, start, size);
    if size > 0 {
      ReadAtInside(data, start, size);
    }
  }

  /** The temporary directory is not empty and does not end in a separator. */
  lemma TmpDirShape(filePath: string)
    ensures TmpDir(filePath) != [] && TmpDir(filePath)[|TmpDir(filePath)| - 1] != Sep
  {
    var name := Basename(filePath);
    var stem := AllButLastSegment(name, '.');
    HeadBasename(filePath);
    SplitAtLast(name, '.');
    if stem != [] {
      assert stem[|stem| - 1] in name;
    }
    assert TmpDir(filePath)[|TmpDir(filePath)| - 1] == if stem == [] then '_' else stem[|stem| - 1];
  }

  /** A piece path lies directly in the temporary directory of `filePath`,
      under the random name, which `is_name_valid` accepts. */
  predicate IsPiecePath(filePath: string, shuffled: string, suffix: string, path: string)
  {
    Dirname(path) == TmpDir(filePath) &&
    Basename(path) == PieceName(shuffled, suffix) &&
    IsNameValid(Basename(path))
  }

  /** `tmp_file_path`: the random name, directly inside the temporary directory. */
  lemma PieceFilePathInTmpDir(filePath: string, letters: string, digits: string, shuffled: string, suffix: string)
    requires IsRandomDraw(Basename(filePath), letters, digits, shuffled)
    requires suffix in PieceSuffixes
    ensures IsPiecePath(filePath, shuffled, suffix, TmpDir(filePath) + [Sep] + PieceName(shuffled, suffix))
  {
    var name := PieceName(shuffled, suffix);
    PieceNameValid(Basename(filePath), letters, digits, shuffled, suffix);
    TmpDirShape(filePath);
    DirnameBasenameOf(TmpDir(filePath), name);
  }

  datatype SplitResult =
    | Piece(size: int, path: string, content: seq<byte>)
    | NegativeSeek  // `seek` raises on a negative start position

  /** `big_file_split(file_path, max_size, start_byte)` for a file holding `data`.
      The random size, the sampled characters, the shuffle and the suffix choice
      are parameters. */
  method BigFileSplit(filePath: string, data: seq<byte>, startByte: int, randomSize: int,
                      letters: string, digits: string, shuffled: string, suffix: string)
    returns (r: SplitResult)
    requires IsRandomDraw(Basename(filePath), letters, digits, shuffled)
    requires suffix in PieceSuffixes
    ensures r.NegativeSeek? <==> startByte < 0
    ensures r.Piece? ==> r.size == PieceSize(|data|, startByte, randomSize)
    ensures r.Piece? ==> r.path == TmpDir(filePath) + [Sep] + PieceName(shuffled, suffix)
    ensures r.Piece? ==> IsPiecePath(filePath, shuffled, suffix, r.path)
    ensures r.Piece? ==> IsPieceOf(data, startByte, r.size, r.content)
  {
    var tmpDir := TmpDir(filePath);
    if startByte < 0 {
      return NegativeSeek;
    }
    var leftSize := |data| - startByte;
    var tmpFileSize := if leftSize > randomSize then randomSize else leftSize;
    var tmpFilePath := tmpDir + [Sep] + PieceName(shuffled, suffix);
    PieceFilePathInTmpDir(filePath, letters, digits, shuffled, suffix);
    var written := WritePiece(data, startByte, tmpFileSize);
    r := Piece(tmpFileSize, tmpFilePath, written);
  }
}
