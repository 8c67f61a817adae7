/** `let_me_upload` from example/useless/utils.py: copy a file under a new
    suffix and append a trailer, whose padding aims at 512 bytes,
    that records its real name. */
module Upload {
  import opened Strings
  import opened Paths
  import opened Streams

  /** The copy loop reads the input in blocks of this many bytes. */
  const UploadChunk: nat := 4096

  /** `big_file_suffix` before `choice` picks one of them. */
  const BigFileSuffixes: seq<string> :=
    ["zip", "rar", "apk", "ipa", "exe", "pdf", "7z", "tar", "deb", "dmg", "rpm", "flac"]

  /** `small_file_suffix`: the big-file suffixes and six more. */
  const SmallFileSuffixes: seq<string> := BigFileSuffixes + ["doc", "epub", "mobi", "mp3", "ppt", "pptx"]

  /** `file_size < 30` compares the size in MiB, got by two float divisions by
      1024; both are exact, so the test is `bytes < 30 * 1024 * 1024`. */
  const SmallFileLimit: nat := 30 * 1024 * 1024

  /** The trailer is meant to take this many bytes once serialised ... */
  const TrailerSize: nat := 512

  /** ... of which the serialised record with an empty name and no padding
      takes this many. */
  const EmptyRecordSize: nat := 42

  /** `suffix`: the small-file pick below 30 MiB, the big-file pick from there on. */
  function ChooseSuffix(fileSize: nat, smallPick: string, bigPick: string): string
  {
    if fileSize < SmallFileLimit then smallPick else bigPick
  }

  lemma ChooseSuffixFrom(fileSize: nat, smallPick: string, bigPick: string)
    requires smallPick in SmallFileSuffixes && bigPick in BigFileSuffixes
    ensures ChooseSuffix(fileSize, smallPick, bigPick) in SmallFileSuffixes
    ensures fileSize >= SmallFileLimit ==> ChooseSuffix(fileSize, smallPick, bigPick) in BigFileSuffixes
  {
    assert forall i :: 0 <= i < |BigFileSuffixes| ==> SmallFileSuffixes[i] == BigFileSuffixes[i];
  }

  /** No suffix on either list holds a '.' or a separator. */
  lemma SuffixesPlain(suffix: string)
    requires suffix in SmallFileSuffixes
    ensures '.' !in suffix && Sep !in suffix
  {
  }

  /** `new_file_path`: the whole path up to its last '.', then '.' and the suffix. */
  function NewFilePath(filePath: string, suffix: string): string
  {
    AllButLastSegment(filePath, '.') + "." + suffix
  }

  /** The new path keeps everything before the last '.' of the path and ends
      in the suffix, after a '.'. */
  lemma NewFilePathParts(filePath: string, suffix: string)
    requires '.' !in suffix
    ensures LastSegment(NewFilePath(filePath, suffix), '.') == suffix
    ensures AllButLastSegment(NewFilePath(filePath, suffix), '.') == AllButLastSegment(filePath, '.')
  {
    var stem := AllButLastSegment(filePath, '.');
    assert stem + "." + suffix == stem + ['.'] + suffix;
    LastSegmentOf(stem, '.', suffix);
  }

  /** A path with an extension gets the extension replaced. */
  lemma NewFilePathReplacesExtension(stem: string, ext: string, suffix: string)
    requires '.' !in ext
    ensures NewFilePath(stem + "." + ext, suffix) == stem + "." + suffix
  {
    assert stem + "." + ext == stem + ['.'] + ext;
    LastSegmentOf(stem, '.', ext);
  }

  /** A path without any '.' loses all of itself: only '.' and the suffix remain. */
  lemma NewFilePathWithoutDot(filePath: string, suffix: string)
    requires '.' !in filePath
    ensures NewFilePath(filePath, suffix) == "." + suffix
  {
    SplitAtLast(filePath, '.');
  }

  /** The new path is the input path exactly when the path has a '.' and the
      chosen suffix is what already follows the last one. */
  lemma NewFilePathSameIff(filePath: string, suffix: string)
    requires '.' !in suffix
    ensures NewFilePath(filePath, suffix) == filePath <==> '.' in filePath && LastSegment(filePath, '.') == suffix
  {
    var stem, ext := AllButLastSegment(filePath, '.'), LastSegment(filePath, '.');
    var p := NewFilePath(filePath, suffix);
    SplitAtLast(filePath, '.');
    assert p == stem + ['.'] + suffix;
    if '.' in filePath {
      assert filePath == stem + ['.'] + ext;
      if p == filePath {
        assert suffix == p[|stem| + 1..] == filePath[|stem| + 1..] == ext;
      }
    } else {
      assert p[|stem|] == '.';
    }
  }

  /** The rewrite cuts at the last '.' of the whole path, so when the directory
      has a '.' and the file name has none, the directory's '.' is taken for the
      start of the extension: what follows it in the directory is lost, and so
      is the file name. */
  lemma {:induction false} NewFilePathDotInDirectory(dir: string, name: string, suffix: string)
    requires dir != [] && dir[|dir| - 1] != Sep && '.' in dir
    requires Sep !in name && '.' !in name
    ensures Dirname(dir + [Sep] + name) == dir
    ensures NewFilePath(dir + [Sep] + name, suffix) == AllButLastSegment(dir, '.') + "." + suffix
  {
    DirnameBasenameOf(dir, name);
    SplitAtLast(dir, '.');
    var stem, ext := AllButLastSegment(dir, '.'), LastSegment(dir, '.');
    var tail := ext + [Sep] + name;
    assert '.' !in tail;
    ConcatAssoc(stem + ['.'], ext, [Sep]);
    ConcatAssoc(stem + ['.'], ext + [Sep], name);
    LastSegmentOf(stem, '.', tail);
  }

  /** `a.b/c` becomes `a.zip`, which is not in the directory `a.b`. */
  lemma NewFilePathLeavesDirectory()
    ensures Dirname("a.b/c") == "a.b"
    ensures NewFilePath("a.b/c", "zip") == "a.zip"
    ensures Dirname("a.zip") == ""
  {
    DottedDirname();
    DottedRewrite();
    BareDirname();
  }

  lemma DottedDirname()
    ensures Dirname("a.b/c") == "a.b"
  {
    assert "a.b/c" == "a.b" + [Sep] + "c";
    DirnameBasenameOf("a.b", "c");
  }

  lemma DottedRewrite()
    ensures NewFilePath("a.b/c", "zip") == "a.zip"
  {
    assert "a.b/c" == "a" + ['.'] + "b/c";
    LastSegmentOf("a", '.', "b/c");
  }

  lemma BareDirname()
    ensures Dirname("a.zip") == ""
  {
    assert Sep !in "a.zip";
  }

  /** The new file name the rewrite evidently aims at: the file name without its
      extension (or all of it when it has none), '.', and the suffix. */
  function NewFileName(name: string, suffix: string): string
  {
    (if '.' in name then AllButLastSegment(name, '.') else name) + "." + suffix
  }

  /** The corrected rewrite: the new file name, in the directory of the file. */
  function NewFilePathInDir(filePath: string, suffix: string): string
  {
    Head(filePath) + NewFileName(Basename(filePath), suffix)
  }

  /** The corrected path stays in the file's directory, keeps the file name's
      stem and ends in the suffix. */
  lemma NewFilePathInDirStays(filePath: string, suffix: string)
    requires '.' !in suffix && Sep !in suffix
    ensures Dirname(NewFilePathInDir(filePath, suffix)) == Dirname(filePath)
    ensures Basename(NewFilePathInDir(filePath, suffix)) == NewFileName(Basename(filePath), suffix)
    ensures LastSegment(NewFileName(Basename(filePath), suffix), '.') == suffix
    ensures var name := Basename(filePath);
      AllButLastSegment(NewFileName(name, suffix), '.') == if '.' in name then AllButLastSegment(name, '.') else name
  {
    var name := Basename(filePath);
    var stem := if '.' in name then AllButLastSegment(name, '.') else name;
    HeadBasename(filePath);
    SplitAtLast(name, '.');
    assert Sep !in stem by {
      if '.' in name {
        assert forall i :: 0 <= i < |stem| ==> stem[i] == name[i];
      }
    }
    assert Sep !in NewFileName(name, suffix);
    HeadJoin(filePath, NewFileName(name, suffix));
    assert stem + "." + suffix == stem + ['.'] + suffix;
    LastSegmentOf(stem, '.', suffix);
  }

  /** Where the file name has a '.', the corrected rewrite agrees with the
      source's. */
  lemma NewFilePathInDirAgrees(filePath: string, suffix: string)
    requires '.' in Basename(filePath)
    ensures NewFilePathInDir(filePath, suffix) == NewFilePath(filePath, suffix)
  {
    var name := Basename(filePath);
    var head, stem, ext := Head(filePath), AllButLastSegment(name, '.'), LastSegment(name, '.');
    HeadBasename(filePath);
    SplitAtLast(name, '.');
    assert filePath == head + stem + ['.'] + ext;
    LastSegmentOf(head + stem, '.', ext);
    ConcatAssoc(head, stem, "." + suffix);
    ConcatAssoc(head + stem, ".", suffix);
    ConcatAssoc(stem, ".", suffix);
  }

  /** `padding`: what is left of the 512 bytes after the UTF-8 name and the
      empty record, as zero bytes; `b"\x00" * padding` is empty when that is
      negative, so a long name makes the trailer longer than 512 bytes. */
  function Padding(name: string): (pad: seq<byte>)
    ensures forall i :: 0 <= i < |pad| ==> pad[i] == 0
    ensures Utf8Length(name) + EmptyRecordSize <= TrailerSize ==> |pad| + Utf8Length(name) + EmptyRecordSize == TrailerSize
    ensures Utf8Length(name) + EmptyRecordSize >= TrailerSize ==> pad == []
    ensures |name| <= 117 ==> |pad| + Utf8Length(name) + EmptyRecordSize == TrailerSize
  {
    Zeros(TrailerSize - Utf8Length(name) - EmptyRecordSize)
  }

  /** The trailer: `pickle.dumps({"name": name, "padding": padding})`, with the
      serialiser a parameter. */
  function Trailer(name: string, serialize: (string, seq<byte>) -> seq<byte>): seq<byte>
  {
    serialize(name, Padding(name))
  }

  /** No write of the copy loop is empty. */
  predicate NoneEmpty(writes: seq<seq<byte>>)
  {
    forall i :: 0 <= i < |writes| ==> writes[i] != []
  }

  /** The counting half of the copy loop's invariant, at position `pos`. */
  predicate CopyAllCount(src: seq<byte>, pos: nat, writes: seq<seq<byte>>)
  {
    pos <= |src| &&
    |writes| + Rounds(|src| - pos, UploadChunk) == Rounds(|src|, UploadChunk) &&
    AtMost(writes, UploadChunk) && NoneEmpty(writes) &&
    (AllOfSize(writes, UploadChunk) || pos == |src|) &&
    FullButLast(writes, UploadChunk)
  }

  /** What holds each time the copy loop tests `chunk`: the writes hold the
      first `pos` bytes, and `chunk` is the block read at `pos`. */
  predicate CopyAllState(src: seq<byte>, pos: nat, chunk: seq<byte>, writes: seq<seq<byte>>)
  {
    pos <= |src| &&
    Flatten(writes) == src[..pos] &&
    chunk == ReadAt(src, pos, UploadChunk) &&
    CopyAllCount(src, pos, writes)
  }

  /** A block read where the previous one stopped extends the prefix read so far. */
  lemma PrefixExtend(src: seq<byte>, pos: nat, chunk: seq<byte>)
    requires chunk != [] && chunk == ReadAt(src, pos, UploadChunk)
    ensures pos + |chunk| <= |src| && src[..pos] + chunk == src[..pos + |chunk|]
  {
    ReadAtShape(src, pos, UploadChunk);
  }

  /** The bytes half of one round: write `chunk`, then read the next block. */
  lemma CopyAllStepBytes(src: seq<byte>, pos: nat, chunk: seq<byte>, writes: seq<seq<byte>>)
    requires chunk != [] && chunk == ReadAt(src, pos, UploadChunk)
    requires Flatten(writes) == src[..pos]
    ensures pos + |chunk| <= |src|
    ensures Flatten(writes + [chunk]) == src[..pos + |chunk|]
  {
    FlattenSnoc(writes, chunk);
    PrefixExtend(src, pos, chunk);
  }

  /** The counting half of one round. */
  lemma CopyAllStepCount(src: seq<byte>, pos: nat, chunk: seq<byte>, writes: seq<seq<byte>>)
    requires chunk != [] && chunk == ReadAt(src, pos, UploadChunk)
    requires CopyAllCount(src, pos, writes)
    ensures CopyAllCount(src, pos + |chunk|, writes + [chunk])
  {
    ReadAtShape(src, pos, UploadChunk);
    BoundsSnoc(writes, chunk, UploadChunk);
    RoundsStep(|src| - pos, UploadChunk, |chunk|);
  }

  /** One round of the copy loop keeps its invariant. */
  lemma CopyAllStep(src: seq<byte>, pos: nat, chunk: seq<byte>, writes: seq<seq<byte>>)
    requires chunk != [] && CopyAllState(src, pos, chunk, writes)
    ensures pos + |chunk| <= |src|
    ensures CopyAllState(src, pos + |chunk|, ReadAt(src, pos + |chunk|, UploadChunk), writes + [chunk])
  {
    CopyAllStepBytes(src, pos, chunk, writes);
    CopyAllStepCount(src, pos, chunk, writes);
  }

  /** The copy loop of `let_me_upload`: read blocks of `UploadChunk` bytes and
      write each one until a read comes back empty. `writes` lists what each
      `out_f.write` call received. */
  method CopyAll(src: seq<byte>) returns (written: seq<byte>, writes: seq<seq<byte>>)
    ensures written == Flatten(writes) == src
    ensures NoneEmpty(writes) && AtMost(writes, UploadChunk) && FullButLast(writes, UploadChunk)
    ensures |writes| == Rounds(|src|, UploadChunk)
  {
    var pos := 0;
    writes := [];
    var chunk := ReadAt(src, pos, UploadChunk);
    while chunk != []
      invariant CopyAllState(src, pos, chunk, writes)
      decreases |src| - pos
    {
      CopyAllStep(src, pos, chunk, writes);
      writes := writes + [chunk];
      pos := pos + |chunk|;
      chunk := ReadAt(src, pos, UploadChunk);
    }
    ReadAtShape(src, pos, UploadChunk);
    assert src[..pos] == src;
    written := Flatten(writes);
  }

  datatype UploadResult =
    | Uploaded(path: string, files: map<string, seq<byte>>)
    | MissingFile  // `os.path.getsize` raises when the file does not exist

  /** `let_me_upload(file_path)` over a file system given as a map from paths to
      contents. `smallPick` and `bigPick` are what the two `choice` calls return,
      and `serialize` stands for `pickle.dumps`. The output file is opened for
      writing, which empties it, before the input is opened for reading. */
  method LetMeUpload(files: map<string, seq<byte>>, filePath: string, smallPick: string, bigPick: string,
                     serialize: (string, seq<byte>) -> seq<byte>)
    returns (r: UploadResult)
    requires smallPick in SmallFileSuffixes && bigPick in BigFileSuffixes
    ensures r.MissingFile? <==> filePath !in files
    ensures r.Uploaded? ==> r.path == NewFilePath(filePath, ChooseSuffix(|files[filePath]|, smallPick, bigPick))
    ensures r.Uploaded? ==> r.files.Keys == files.Keys + {r.path}
    ensures r.Uploaded? ==> forall p :: p in files && p != r.path ==> r.files[p] == files[p]
    ensures r.Uploaded? && r.path != filePath ==> r.files[r.path] == files[filePath] + Trailer(Basename(filePath), serialize)
    ensures r.Uploaded? && r.path == filePath ==> r.files[r.path] == Trailer(Basename(filePath), serialize)
  {
    if filePath !in files {
      return MissingFile;
    }
    var fileSize := |files[filePath]|;
    var fileName := Basename(filePath);
    var suffix := if fileSize < SmallFileLimit then smallPick else bigPick;
    var newFilePath := NewFilePath(filePath, suffix);
    var fs := files[newFilePath := []];
    var copied, _ := CopyAll(fs[filePath]);
    var padding := Padding(fileName);
    fs := fs[newFilePath := copied + serialize(fileName, padding)];
    r := Uploaded(newFilePath, fs);
  }

  /** A file `a.zip` that draws the suffix `zip` is opened for writing under
      its own name before it is read: its bytes are gone and only the trailer
      remains. */
  method UploadSameSuffix(serialize: (string, seq<byte>) -> seq<byte>) returns (r: UploadResult)
    ensures r.Uploaded? && r.path == "a.zip" && "a.zip" in r.files
    ensures r.files["a.zip"] == Trailer("a.zip", serialize)
  {
    NewFilePathReplacesExtension("a", "zip", "zip");
    assert "a" + "." + "zip" == "a.zip";
    r := LetMeUpload(map["a.zip" := [1, 2, 3]], "a.zip", "zip", "zip", serialize);
    assert Sep !in "a.zip";
    SplitAtLast("a.zip", Sep);
  }

  /** `let_me_upload` as evidently intended: the input is read before the output
      is opened, and the output goes next to the input. The output always holds
      the input's bytes followed by the trailer. */
  method LetMeUploadReadingFirst(files: map<string, seq<byte>>, filePath: string, smallPick: string, bigPick: string,
                                 serialize: (string, seq<byte>) -> seq<byte>)
    returns (r: UploadResult)
    requires smallPick in SmallFileSuffixes && bigPick in BigFileSuffixes
    ensures r.MissingFile? <==> filePath !in files
    ensures r.Uploaded? ==> r.path == NewFilePathInDir(filePath, ChooseSuffix(|files[filePath]|, smallPick, bigPick))
    ensures r.Uploaded? ==> Dirname(r.path) == Dirname(filePath)
    ensures r.Uploaded? ==> r.files.Keys == files.Keys + {r.path}
    ensures r.Uploaded? ==> forall p :: p in files && p != r.path ==> r.files[p] == files[p]
    ensures r.Uploaded? ==> r.files[r.path] == files[filePath] + Trailer(Basename(filePath), serialize)
  {
    if filePath !in files {
      return MissingFile;
    }
    var fileSize := |files[filePath]|;
    var fileName := Basename(filePath);
    var suffix := if fileSize < SmallFileLimit then smallPick else bigPick;
    var newFilePath := NewFilePathInDir(filePath, suffix);
    ChooseSuffixFrom(fileSize, smallPick, bigPick);
    SuffixesPlain(suffix);
    NewFilePathInDirStays(filePath, suffix);
    var copied, _ := CopyAll(files[filePath]);
    var padding := Padding(fileName);
    var fs := files[newFilePath := copied + serialize(fileName, padding)];
    r := Uploaded(newFilePath, fs);
  }
}
