# funget helpers: a verified model of `example/useless/utils.py`

This project models the self-contained helpers of `example/useless/utils.py`:

- `name_format`, the file-name sanitiser.
- `is_name_valid`, the upload suffix whitelist.
- `unit_step`, the display unit for a byte count.
- The parts of `big_file_split` that compute. These are the temporary directory name, the random piece name, the piece size, and the loop that copies the piece out of the big file.
- The parts of `let_me_upload` that compute. These are the new path, the suffix choice, the loop that copies the file, and the padding arithmetic of the trailer, which aims at 512 bytes.

A file is a sequence of bytes, and a file system is a map from paths to byte sequences. What the source draws at random becomes a method parameter: the random size, the sampled letters and digits, the shuffle, and the suffix `choice`. `pickle.dumps` also becomes a parameter, `serialize`.

Modules:

- `Strings`: the parts of Python's `str` the helpers use. These are `replace`, which is one left-to-right scan; `split` with `[-1]` and `[:-1]`; `join`; deleting the characters of a regular-expression class; and the UTF-8 length.
- `Paths`: POSIX `basename` and `dirname`.
- `Streams`: a byte, the read after a `seek`, the bytes of a list of writes, and round counting for chunked copies.
- `Names`: `name_format` and `is_name_valid`.
- `Units`: `unit_step`.
- `Split`: `big_file_split`.
- `Upload`: `let_me_upload`, plus a corrected variant (see Findings).

The two copy loops are methods with `while` loops and invariants. Each one returns the list of writes it made. Its contract gives the bytes written and, directly or through the lemmas about `Split.PieceWrites` (the writes `big_file_split`'s loop makes), how they are cut into writes.

## Model

| member | source | states |
|---|---|---|
| Strings.Replace | example/useless/utils.py:33 | `str.replace` never lengthens a string when the replacement is no longer than the pattern. With a shorter replacement it keeps the length exactly when the pattern does not occur. It returns the string unchanged when the pattern is absent, and adds no character found in neither the input nor the replacement |
| Strings.ReplaceRemovesChar | example/useless/utils.py:33 | replacing a character by text that lacks it leaves no occurrence of that character |
| Strings.ReplaceAppend | example/useless/utils.py:33 | `replace` on `a + b` is `replace` on `a` followed by `replace` on `b` when `b` starts with a character the pattern lacks |
| Strings.RemoveChars | example/useless/utils.py:35 | deleting a character class keeps exactly the characters outside the class, never lengthens the string, and keeps its length exactly when no character is in the class |
| Strings.RemoveCharsAppend | example/useless/utils.py:35 | deleting a class distributes over concatenation |
| Strings.RemoveCharsNone | example/useless/utils.py:35 | a string with no character of the class is returned unchanged |
| Strings.JoinSplit | example/useless/utils.py:179 | `sep.join(s.split(sep)) == s` |
| Strings.SplitJoin | example/useless/utils.py:260 | splitting a join of separator-free parts gives the parts back |
| Strings.SplitAtLast | example/useless/utils.py:114 | the last segment holds no separator; a string with a separator is `[:-1]`-join + sep + last segment; a string without one is its own last segment with nothing before it |
| Strings.LastSegmentOf | example/useless/utils.py:114 | for `a + sep + x` with `x` separator-free, `split(sep)[-1]` is `x` and the `[:-1]` join is `a` |
| Strings.Utf8Length | example/useless/utils.py:271 | `len(s.encode("utf-8"))` lies between `len(s)` and `4 * len(s)` and equals `len(s)` exactly for ASCII text |
| Paths.HeadBasename | example/useless/utils.py:176 | a path is its head (through the last separator) followed by its base name, which holds no separator |
| Paths.DirnameShape | example/useless/utils.py:179 | `dirname` is a prefix of the path that is empty, all separators, or does not end in a separator |
| Paths.DirnameBasenameOf | example/useless/utils.py:179 | `dirname` and `basename` undo joining a directory that does not end in a separator and a separator-free name |
| Paths.HeadJoin | example/useless/utils.py:260 | a separator-free name placed after a path's head is the new path's base name, and the head is unchanged |
| Streams.ReadAt | example/useless/utils.py:217-228 | `seek(pos); read(n)` returns at most `n` bytes, and exactly `n` when they lie inside the file |
| Streams.ReadAtShape | example/useless/utils.py:228 | a read returns the file's bytes at its position; it is empty only for `n == 0` or at/after the end, and short only when it reaches the end |
| Streams.ReadAtThenRead | example/useless/utils.py:226-232 | two reads in a row, the second starting where the first stopped, read what one read of the combined length does |
| Streams.FlattenSnoc | example/useless/utils.py:231 | one more write appends its bytes to the file |
| Streams.RoundsBounds | example/useless/utils.py:226-232 | the number of rounds of a chunked copy is the size divided by the chunk, rounded up, and zero exactly for sizes of zero or less |
| Streams.RoundsStep | example/useless/utils.py:226-232 | a round that moves `min(left, chunk)` bytes leaves one round fewer |
| Streams.BoundsSnoc | example/useless/utils.py:231 | how "at most a chunk", "exactly a chunk" and "all full but the last" change when one more write is made |
| Streams.FlattenCons | example/useless/utils.py:228-231 | the bytes of a write followed by more writes are its bytes followed by theirs |
| Streams.BoundsCons | example/useless/utils.py:228-231 | how "at most a chunk" and "all full but the last" read when one write comes before the others |
| Streams.Zeros | example/useless/utils.py:272 | `b"\x00" * n` is `n` zero bytes, and empty for `n <= 0` |
| Names.NameFormat | example/useless/utils.py:30-35 | the result holds none of the forbidden characters and neither U+00A0 nor U+3000; every character in it was in the input or is a space; it is never longer than the input |
| Names.PlainNameClean | example/useless/utils.py:35 | a name of lower-case letters, digits and '.' is one `name_format` leaves alone |
| Names.NameFormatKeepsClean | example/useless/utils.py:30-35 | a clean name is returned unchanged |
| Names.NameFormatFixedIsClean | example/useless/utils.py:30-35 | a name returned unchanged is clean |
| Names.NameFormatFixedIff | example/useless/utils.py:30-35 | `name_format(n) == n` exactly when `n` is clean (both directions) |
| Names.NameFormatNotIdempotent | example/useless/utils.py:33 | the double-space pass is made once: three spaces become two, and a second call makes them one |
| Names.NameFormatAppend | example/useless/utils.py:30-35 | `name_format` works piecewise across a boundary whose right side starts with a character no step touches |
| Names.NameFormatCleanTail | example/useless/utils.py:213-214 | a clean tail starting with '.' passes through `name_format` unchanged, whatever precedes it |
| Names.IsNameValidWithDot | example/useless/utils.py:114 | with a '.', the name is valid exactly when the text after the last '.' is a listed suffix |
| Names.IsNameValidWithoutDot | example/useless/utils.py:114 | without a '.', the name is valid exactly when the whole name is a listed suffix |
| Names.TrailingDotRejected | example/useless/utils.py:114 | a name ending in '.' has an empty suffix and is rejected |
| Names.SuffixCaseMatters | example/useless/utils.py:56-114 | `a.pdf` is accepted and `a.PDF` is not |
| Units.UnitStep | example/useless/utils.py:278-291 | the step is 1, 1 KiB, 1 MiB or 1 GiB, paired with B, KB, MB, GB respectively (each both ways); for sizes of at least one byte the step does not exceed the size; below GB the size is under 1024 steps |
| Units.UnitStepIsLargestFit | example/useless/utils.py:278-291 | no larger one of the four steps fits in the size |
| Units.UnitStepMonotone | example/useless/utils.py:278-291 | a larger size never gets a smaller step |
| Split.TmpDirWithExtension | example/useless/utils.py:178-180 | for `dir/stem.ext` the temporary directory is `dir/__stem` |
| Split.TmpDirWithoutExtension | example/useless/utils.py:178-180 | for a file name without '.', the temporary directory is `dir/__` |
| Split.TmpDirBareName | example/useless/utils.py:178-180 | for a file name with no directory part the temporary directory starts at the root: `/__` followed by the stem |
| Split.TmpDirAtRoot | example/useless/utils.py:178-180 | `big.iso` gets the temporary directory `/__big`, whose parent is the root `/` |
| Split.TmpDirBesideStays | example/useless/utils.py:178-180 | the corrected temporary directory always has the file's own directory as its parent and `__` + stem as its name, for bare names too |
| Split.TmpDirBesideAgrees | example/useless/utils.py:178-180 | for a file inside a directory, the corrected temporary directory is the one the source computes |
| Split.TmpDirShape | example/useless/utils.py:178-180 | the temporary directory is not empty and does not end in a separator |
| Split.PieceSize | example/useless/utils.py:218-220 | the piece size is the smaller of the random size and the bytes left after `start_byte` |
| Split.PieceNameParts | example/useless/utils.py:213-214 | `name_format` leaves the '.' and the chosen suffix of the random name alone |
| Split.PieceSuffixAccepted | example/useless/utils.py:196-209 | every suffix the random name can get is on the `is_name_valid` whitelist and holds no '.' |
| Split.NoDotInDraw | example/useless/utils.py:210-212 | the shuffled characters, formatted or not, hold no '.' |
| Split.PieceNameValid | example/useless/utils.py:193-214 | the random name is the formatted characters, '.', and the suffix; its only '.' is that one; it ends in the suffix, is accepted by `is_name_valid` and holds no separator |
| Split.PieceFilePathInTmpDir | example/useless/utils.py:221 | the piece path lies directly in the temporary directory, under the random name |
| Split.PieceWritesFull | example/useless/utils.py:230-232 | with at least 524288 bytes left, a round reads a full chunk and the loop goes on with that many fewer |
| Split.PieceWritesShort | example/useless/utils.py:227-229 | with fewer than 524288 bytes left, the round reads them all and is the last |
| Split.PieceWritesFirst | example/useless/utils.py:226-232 | the bytes of the loop's writes are the first read followed by the bytes of the rounds after it |
| Split.PieceWritesBytes | example/useless/utils.py:226-232 | the loop's writes hold exactly the `left` bytes that follow the position (fewer at the end of the file, none for `left <= 0`) |
| Split.PieceWritesCount | example/useless/utils.py:226-232 | the loop makes ceil(left / 524288) writes, none for `left <= 0` |
| Split.PieceWritesBounds | example/useless/utils.py:226-232 | every write holds at most 524288 bytes, and when the piece lies inside the file every write but the last holds exactly 524288 |
| Split.CopyPiece | example/useless/utils.py:223-232 | the loop makes exactly the writes of the specification `PieceWrites`, and what it writes is the `size` bytes that follow `start` (nothing for `size <= 0`, fewer at the end of the file) |
| Split.WritePiece | example/useless/utils.py:216-232 | a piece inside the file receives exactly the slice `data[start:start+size]`; a piece of size zero or less receives nothing |
| Split.BigFileSplit | example/useless/utils.py:170-234 | a negative `start_byte` fails; otherwise the result size is the piece size, the path is exactly the temporary directory, a separator and a valid random name, and the piece holds the file's bytes from `start_byte` |
| Upload.ChooseSuffixFrom | example/useless/utils.py:256-259 | the suffix always comes from the small-file list, and from the big-file list for files of 30 MiB or more |
| Upload.NewFilePathParts | example/useless/utils.py:260 | the new path ends in the suffix after its last '.', and everything before that '.' is what preceded the input path's last '.' |
| Upload.NewFilePathReplacesExtension | example/useless/utils.py:260 | `stem.ext` becomes `stem.suffix` |
| Upload.NewFilePathWithoutDot | example/useless/utils.py:260 | a path without any '.' becomes just `.suffix` |
| Upload.NewFilePathSameIff | example/useless/utils.py:260 | the new path equals the input path exactly when the path has a '.' and the suffix equals its current extension |
| Upload.NewFilePathDotInDirectory | example/useless/utils.py:260 | with a '.' in the directory and none in the file name, the directory is cut at its last '.' and the file name is lost |
| Upload.NewFilePathLeavesDirectory | example/useless/utils.py:260 | `a.b/c` becomes `a.zip`, whose directory is not `a.b` |
| Upload.NewFilePathInDirStays | example/useless/utils.py:260 | the corrected path stays in the file's directory, ends in the suffix after its last '.', and keeps the file name's stem |
| Upload.NewFilePathInDirAgrees | example/useless/utils.py:260 | when the file name has a '.', the corrected path is the source's path |
| Upload.Padding | example/useless/utils.py:271-272 | the padding is zero bytes, and UTF-8 name + 42 + padding is exactly 512 whenever the padding is not negative; otherwise it is empty; names of up to 117 characters always fit |
| Upload.CopyAllStep | example/useless/utils.py:265-268 | one round of the loop, writing the block just read and reading the next, keeps the loop invariant |
| Upload.CopyAll | example/useless/utils.py:264-268 | the loop writes exactly the input's bytes, in ceil(size / 4096) non-empty writes of at most 4096 bytes, all full but the last |
| Upload.LetMeUpload | example/useless/utils.py:237-275 | a missing input fails; otherwise the result is the rewritten path, only that path is added or changed, and it holds the input's bytes then the trailer, or the trailer alone when it is the input's own path |
| Upload.UploadSameSuffix | example/useless/utils.py:257-264 | `a.zip` with the suffix `zip` is left holding only the trailer |
| Upload.LetMeUploadReadingFirst | example/useless/utils.py:237-275 | the corrected upload: a missing input fails; otherwise the new file lies in the input's directory, only it is added or changed, and it always holds the input's bytes followed by the trailer |

## Left out

- `remove_notes`, `time_format`, `is_file_url`, `is_folder_url` and `un_serialize`: regular expressions with non-greedy matching, the wall clock, HTTP requests and unpickling are not modelled.
- `pickle.dumps` is the parameter `serialize`. The model therefore does not show that the trailer is 512 bytes long; it proves only the padding arithmetic that aims at that length, using the 42-byte empty record the source states.
- `get_random_size`, with its weighted float draws and `round`, becomes the integer parameter `randomSize`. The `sample`, `shuffle` and `choice` calls become parameters constrained by what those functions guarantee.
- `os.path.getsize`, `os.path.exists`, `os.makedirs` and `open`. The file system is a map, or the big file's bytes are given; permission errors, a missing big file in `big_file_split`, and the creation of the temporary directory are not modelled.
- `os.sep` is `/`, that is, POSIX paths only.
- Strings are sequences of Unicode scalar values, so a file name holding a lone surrogate cannot be written down; the `UnicodeEncodeError` that `file_name.encode("utf-8")` raises for one is not modelled.
- Upload.LetMeUpload: the file system map holds files only, so the `IsADirectoryError` that opening the rewritten path raises when it names an existing directory (`x.zip/y` with suffix `zip` becomes `x.zip`) is not modelled; the model returns `Uploaded` with a file at that path.
- `let_me_upload`'s size test divides by 1024 twice in floating point. Both divisions are exact, so the model compares whole bytes against 30 MiB.
- Units.UnitStep: the step is returned as an exact integer, not as the float `step * 1.0`.
- The download engines, the range planner and the configuration are not part of this model.

## Findings

| source | as written | input that shows it | evidently intended | confidence | as-written member | corrected member |
|---|---|---|---|---|---|---|
| example/useless/utils.py:260-264 | the output path is opened with "wb", which empties it, before the input is opened for reading | `a.zip` under 30 MiB when `choice` picks `zip`: the new path is `a.zip`, so the file is emptied and ends up holding only the trailer | the output holds the input's bytes followed by the trailer | not executed | Upload.UploadSameSuffix | Upload.LetMeUploadReadingFirst |
| example/useless/utils.py:260 | the new path is the whole path cut at its last '.', so a '.' in a directory name counts as the extension of a file name that has none | `a.b/c` with suffix `zip` becomes `a.zip`, outside the directory `a.b`; `d/c` becomes `.zip` | replace the file name's extension, keeping the file in its directory | not executed | Upload.NewFilePathLeavesDirectory | Upload.NewFilePathInDirStays |
| example/useless/utils.py:178-180 | the temporary directory is the dirname, `os.sep`, `__` and the stem, even when the dirname is empty | `big_file_split("big.iso")` in the current directory uses `/__big`, a directory under the root | `__big` beside the file, in the current directory | not executed | Split.TmpDirAtRoot | Split.TmpDirBesideStays |
