# gcfuse mount-time decoding, modelled in Dafny

gcfuse mounts a Nintendo GameCube disc image as a read-only FUSE file system. At mount time,
`gcfs_init` reads the 0x440-byte disc header. From it, the code:

- builds the text of a synthetic `.metadata` file: the game code, the publisher code and name, and the title;
- derives a file name and a size for the boot executable (the DOL) from the title and from the DOL's 256-byte section table;
- walks the flat directory table (the FST) to insert every file of the disc into a path tree.

The code is `gcfs_recurse_directory`. Each FST record is 12 bytes long, is numbered from 1 and has three big-endian 32-bit fields:

- the name offset, with bit 24 marking a directory;
- the file offset;
- the file size, or, for a directory, the index of the last record of its subtree.

Reading `.metadata` clamps the request to the text length. The model covers these decoding steps and the `BE_16`/`BE_32`/`LE_16`/`LE_32` macros of `src/gcfs.h`.

The model is organised as follows:

- `ByteOrder`: the byte-order macros.
- `CType`: the C-locale character classes and `strlen`.
- `DirectoryTable`: record decoding, and the walk as a function. The walk is proved equal to an independent description, one entry per file record, with its ancestors' names as path. The range walk is proved to visit every index of `[s, e]` once, in order.
- `DirectoryWalk`: the C walker. It is a recursive method with a `while` loop over one shared 1024-byte name buffer (an `array`) and a byte-by-byte name loop. It is proved to insert what the function says, to return `e - s + 1`, to leave the caller's prefix in the buffer alone, and to run its loop body for exactly the indices of the functional trace.
- `Executable`: the file-name loop over the title, and the two running-maximum loops over the section table.
- `Metadata`: the publisher table, the metadata text with a parser that reads every field back out of it, and the read clamp.
- `Wrappers`: the optional value and the minimum shared by the other modules.
- `Gcfs`: `gcfs_init` as a class `GcfsFile`, whose metadata buffer is an `array` filled piece by piece. `Mount` is its functional counterpart, with a failure for each read that can come back short.

The image behind the file descriptor is an immutable byte sequence. `lseek` followed by `read` returns the bytes from an offset, up to the count or the end of the image. `tree_insert` is modelled by returning or recording the inserted `(path, offset, size)` triples, in call order.

A directory's third field is the 1-based index of the last record of its subtree. The walk runs `i <= ending_index`, so the subtree of directory `i` is the records `[i+1, field2]`; the same number is the 0-based exclusive end of the subtree. The directory flag is bit 24 of field 0 (`0x01000000`), which is the low bit of the record's first byte.

## Model

| member | source | states |
|---|---|---|
| ByteOrder.BE16 | src/gcfs.h:96 | the 16-bit big-endian read is below 2^16 |
| ByteOrder.BE32 | src/gcfs.h:99-102 | the 32-bit big-endian read is below 2^32; `BE32OfBytes` and `BytesOfBE32` make it the inverse of the big-endian encoding |
| ByteOrder.LE16 | src/gcfs.h:105 | the 16-bit little-endian read is below 2^16; `LE16IsReversedBE16` ties it to the big-endian read |
| ByteOrder.LE32 | src/gcfs.h:108-111 | the 32-bit little-endian read is below 2^32; `LE32IsReversedBE32` ties it to the big-endian read |
| ByteOrder.BE32OfBytes | src/gcfs.h:99-102 | the 32-bit big-endian read of the encoding of any value below 2^32 is that value |
| ByteOrder.BytesOfBE32 | src/gcfs.h:99-102 | encoding a decoded value gives the same four bytes back, so the read is injective |
| ByteOrder.LE16IsReversedBE16 | src/gcfs.h:105 | a 16-bit little-endian read is the big-endian read of the two bytes reversed |
| ByteOrder.LE32IsReversedBE32 | src/gcfs.h:108-111 | a 32-bit little-endian read is the big-endian read of the four bytes reversed |
| ByteOrder.BE32Split | src/gcfs.h:96-102 | a 32-bit big-endian value is its high 16-bit half times 65536 plus its low half |
| CType.StrLen | src/gcfs.c:313 | `strlen` is the index of the first NUL: no byte before it is NUL, and the byte there is |
| CType.IsPrint | src/gcfs.c:180 | `isprint` in the C locale: the bytes 0x20 to 0x7E. It has no contract of its own; `DirectoryTable.PrintableRunStops` and `Metadata.Render` use it |
| CType.IsAlnum | src/gcfs.c:326 | `isalnum` in the C locale: the digits and the upper- and lower-case letters. It has no contract of its own; `Executable.SanitizeByte` states what the loop does with it |
| CType.IsUpper | src/gcfs.c:327 | `isupper` in the C locale: `A` to `Z`. It has no contract of its own; `CType.ToLower` states what it selects |
| CType.ToLower | src/gcfs.c:327-328 | `tolower` maps an upper-case letter to the lower-case letter 0x20 above it and leaves every other byte alone |
| CType.ToLowerIdempotent | src/gcfs.c:326-328 | lower-casing twice is lower-casing once, leaves no upper-case letter, and keeps a byte alphanumeric exactly when it was |
| CType.ToLowerEqual | src/gcfs.c:327-328 | two bytes lower-case to the same byte exactly when they are equal or one is the upper-case form of the other |
| DirectoryTable.NameWord | src/gcfs.c:167 | field 0 of record `i`, read big-endian from byte `12(i-1)`, is below 2^32 |
| DirectoryTable.FileOffset | src/gcfs.c:168 | field 1 of record `i`, from byte `12(i-1) + 4`, is below 2^32 |
| DirectoryTable.FileSize | src/gcfs.c:169 | field 2 of record `i`, from byte `12(i-1) + 8`, is below 2^32 |
| DirectoryTable.IsDir | src/gcfs.c:171 | a record is a directory when bit 24 of field 0 is set; `DirFlagIsLowBitOfFirstByte` states it on the bytes |
| DirectoryTable.NameOffset | src/gcfs.c:172-173 | the name starts at the cleared field plus the base offset, modulo 2^32, so below 2^32 |
| DirectoryTable.NameField | src/gcfs.c:171-172 | clearing the flag leaves bit 24 clear, and adding the flag back for a directory gives field 0 |
| DirectoryTable.DirFlagIsLowBitOfFirstByte | src/gcfs.c:171 | a record is a directory exactly when the low bit of its first byte is set |
| DirectoryTable.DecodeEncodedRecord | src/gcfs.c:167-169 | the fields of a record encoded at bytes `12(i-1)` to `12i` come back out as fields 0, 1 and 2 of record `i`, and the flag is bit 24 of field 0 |
| DirectoryTable.PrintableRunStops | src/gcfs.c:176-181 | the name read from an offset is all printable and stops at the first byte that is not |
| DirectoryTable.Name | src/gcfs.c:176-181 | the name the loop reads for record `i`: the printable run at its name offset, or nothing past the image. It has no contract of its own; `NameIsPrintable` and `PrintableRunStops` state what it is |
| DirectoryTable.NameIsPrintable | src/gcfs.c:176-183 | the name of every record is printable, so it holds no terminator |
| DirectoryTable.Walk | src/gcfs.c:166-200 | the entries the loop inserts from index `i` to `e` under a prefix: a file gives the prefix and its name with fields 1 and 2, a directory recurses over `[i+1, field2]` under the prefix, its name and `/`, and the loop resumes after the subtree. It has no contract of its own; `WalkIsFileEntries` and `DirectoryWalk.RecurseDirectory` state what it is |
| DirectoryTable.WalkIsFileEntries | src/gcfs.c:166-200 | for a table with nested subtrees, the walk of `[s, e]` inserts one entry per file record in index order. Each path is the prefix, each ancestor directory's name followed by `/`, then the file's own name. Each offset and size is that record's field 1 and field 2. Directories insert nothing |
| DirectoryTable.VisitsAreInterval | src/gcfs.c:166-200 | the loop body runs once for every index of `[s, e]`, in increasing order, and for no other index |
| DirectoryTable.PathsFitWalk | src/gcfs.c:176-187 | if every record's whole path fits in the 1024-byte name buffer, the walk never overruns it |
| DirectoryWalk.ReadName | src/gcfs.c:176-183 | the name loop copies exactly the printable run at the name offset after the prefix, keeps the prefix, and writes the terminator over the byte that stopped it |
| DirectoryWalk.DecodeRecord | src/gcfs.c:167-173 | the three fields of record `i`, the flag, and the name offset as the cleared field plus the base, modulo 2^32 |
| DirectoryWalk.DecodeNode | src/gcfs.c:167-173 | the decoded fields are the decoded table's record `i`, and its name lies inside the image |
| DirectoryWalk.RecurseDirectory | src/gcfs.c:145-201 | the walker returns `e - s + 1` (0 for an empty directory range), leaves the caller's `p` prefix bytes unchanged, and inserts exactly the entries of the functional walk from that prefix. The indices its loop body runs for, here and in its recursive calls, are `Visits(ns, s, e)`, which `VisitsAreInterval` shows to be every index of `[s, e]` once, in order, when subtrees nest |
| DirectoryWalk.VisitRecord | src/gcfs.c:166-198 | one loop step at record `i` inserts the first entries of the walk from `i` and moves `i` past a directory's subtree (`field2 - i`) or by 0 for a file. For a directory it reports the indices the recursion visited |
| DirectoryWalk.EnterDirectory | src/gcfs.c:185-190 | a directory appends `/`, recurses over `[i+1, field2]` under the longer prefix, skips those records, and reports the indices of the subtree the recursion visited |
| DirectoryWalk.InsertFile | src/gcfs.c:191-197 | a file inserts one entry: the prefix and its name, with field 1 and field 2 |
| DirectoryWalk.AppendSlash | src/gcfs.c:186-187 | the buffer gets `/` and a new terminator after the name |
| DirectoryWalk.InsertedPath | src/gcfs.c:194-196 | the path copied for `tree_insert` up to `strlen` is the whole buffer before the terminator |
| Executable.SanitizeByte | src/gcfs.c:324-331 | one title byte gives at most one name byte, in `[a-z0-9-]`: a space gives `-`, an alphanumeric byte gives its lower-case form, and any other byte gives nothing |
| Executable.Sanitize | src/gcfs.c:321-332 | the name made from the title is no longer than it, and every byte is a lower-case letter, a digit or a dash. `SanitizeSpaces`, `SanitizeDropsOthers`, `SanitizeKeepsLowerAlnum`, `SanitizeIgnoresCase` and `SanitizeAppend` fix the name of every title |
| Executable.SanitizeSpaces | src/gcfs.c:324-325 | a title of spaces becomes the same number of dashes |
| Executable.SanitizeDropsOthers | src/gcfs.c:322-331 | a title with no space and no alphanumeric byte gives the empty name |
| Executable.SanitizeAppend | src/gcfs.c:322-331 | sanitising works byte by byte, so it distributes over concatenation |
| Executable.SanitizeKeepsLowerAlnum | src/gcfs.c:326-330 | a title of lower-case letters and digits is kept unchanged |
| Executable.SanitizeIgnoresCase | src/gcfs.c:327-328 | lower-casing the title first gives the same name |
| Executable.SanitizeInto | src/gcfs.c:321-332 | the loop writes the first `j` bytes of the buffer as the sanitised title, with `j <= 0x3E0` |
| Executable.MainDolFilename | src/gcfs.c:321-334 | the file name is the sanitised title followed by `-exe.dol`, every byte before the suffix is in `[a-z0-9-]`, and the length is at most 0x3E0 + 8, below 0x400 |
| Executable.TextMaxIsMaximum | src/gcfs.c:350-355 | after `n` text sections, the running maximum bounds each of their ends and is 0 or one of them |
| Executable.SectionMaxIsMaximum | src/gcfs.c:357-362 | after the text sections and `n` data sections, the running maximum bounds every end seen and is 0 or one of them |
| Executable.SectionEnd | src/gcfs.c:351-353 | the end of one section, offset plus size in unsigned 32-bit arithmetic, so below 2^32 |
| Executable.TextEnd | src/gcfs.c:351-353 | the end of text section `i`, offset at `4i` and size at `0x90 + 4i`. It has no contract of its own; `TextMaxIsMaximum` uses it |
| Executable.DataEnd | src/gcfs.c:358-360 | the end of data section `i`, offset at `0x1C + 4i` and size at `0xAC + 4i`. It has no contract of its own; `SectionMaxIsMaximum` uses it |
| Executable.TextMax | src/gcfs.c:348-355 | the first loop's running maximum after `n` text sections, from 0 with a strict `>`. It has no contract of its own; `TextMaxIsMaximum` states what it is |
| Executable.SectionMax | src/gcfs.c:357-362 | the second loop's running maximum after `n` data sections, from the text maximum. It has no contract of its own; `SectionMaxIsMaximum` states what it is |
| Executable.ExecutableSize | src/gcfs.c:348-362 | the running maximum after the 7 text and 10 data sections of the 256-byte header; `ExecutableSizeIsMaximum` states what it is |
| Executable.ExecutableSizeIsMaximum | src/gcfs.c:348-362 | the executable size is below 2^32, at least every one of the 17 section ends `(offset + size) mod 2^32`, and is 0 or one of them |
| Executable.DolSize | src/gcfs.c:348-362 | the two loops compute that maximum of 0 and the 7 text and 10 data section ends |
| Metadata.PublisherName | src/gcfs.c:206-244 | the fallback name is returned exactly for the codes the table does not list |
| Metadata.PublisherNameIsLabel | src/gcfs.c:206-244 | every publisher name is printable 7-bit text without `)`, at most 17 characters long |
| Metadata.NintendoAndUnknownCodes | src/gcfs.c:206-244 | code `01` gives "Nintendo", and an unlisted code gives "unknown publisher" |
| Metadata.Render | src/gcfs.c:295-297 | a code byte is shown as itself when printable and as `?` otherwise |
| Metadata.TitleText | src/gcfs.c:309 | the title is the header bytes from 0x20 up to their first NUL or 0x3E0 bytes, whichever comes first |
| Metadata.GameCode | src/gcfs.c:295-297 | the four game-code bytes, each rendered printable, so four bytes long; `MetadataRoundTrip` reads them back out of the text |
| Metadata.PublisherCode | src/gcfs.c:301-303 | the two publisher-code bytes, each rendered printable, so two bytes long; `MetadataRoundTrip` reads them back out of the text |
| Metadata.PublisherLine | src/gcfs.c:305 | the publisher's name for header bytes 4 and 5, at most 17 bytes long and without `)`, so the parser can find its end |
| Metadata.MetadataText | src/gcfs.c:291-310 | the text's length is 49 plus the publisher name's plus the title's, below 2047 |
| Metadata.MetadataTextHasNoNul | src/gcfs.c:312-313 | the text has no NUL, so the final `strlen` measures all of it |
| Metadata.MetadataRoundTrip | src/gcfs.c:291-310 | parsing the metadata text gives back the rendered game code, the rendered publisher code, the publisher's name and the title |
| Metadata.StrCat | src/gcfs.c:293 | `strcat` of a piece without NUL leaves the string as the old string followed by the piece |
| Metadata.PutBytes | src/gcfs.c:295-297 | the character loop as written: the piece is written from `at` on, every byte after it is left as it was, and no terminator is written |
| Metadata.CodeBytesAsWritten | src/gcfs.c:292-297 | as written: the buffer after `metadata[0] = 0`, the `strcat` of the label and the unterminated code loop, as long as the 2048-byte buffer; `CodeBytesKeepLeftover` states its contents |
| Metadata.GameCodeLineAsWritten | src/gcfs.c:292-298 | as written: that buffer with the `strncat` of CRLF, or none when the leftover string leaves no room for it; `GameCodeLineKeepsLeftover` and `GameCodeLineAsIntended` state what it holds |
| Metadata.CodeBytesKeepLeftover | src/gcfs.c:292-297 | as written, after the game-code loop the buffer holds the label, the four codes, and the untouched bytes of the buffer from index 15 on |
| Metadata.GameCodeLineKeepsLeftover | src/gcfs.c:292-298 | as written, the string after the CRLF is appended is the label, the codes, every leftover byte from index 15 up to the first NUL, then CRLF |
| Metadata.GameCodeLineAsIntended | src/gcfs.c:292-298 | as written, the line comes out as the label, the codes and CRLF exactly when the leftover byte at index 15 is NUL |
| Metadata.GameCodeLineWithLeftoverX | src/gcfs.c:295-298 | as written, a buffer with `x` at index 15 and NUL at index 16 puts an `x` between the codes and the CRLF |
| Metadata.ReadAsWritten | src/gcfs.c:104-115 | as written: nothing at or past the end, otherwise `min(count, size - offset)` bytes, which are always the first bytes of the text |
| Metadata.MetadataRead | src/gcfs.c:104-115 | corrected: the same byte count, taken from `offset` |
| Metadata.ReadsReassemble | src/gcfs.c:104-115 | with the corrected copy, two reads that follow each other return what one read of both lengths returns |
| Metadata.ReadAsWrittenIgnoresOffset | src/gcfs.c:112 | as written, a 1-byte read at offset 1 returns `G`, the first byte, for every header, where the file's second byte is `a` |
| Gcfs.ReadAt | src/gcfs.c:277 | a read returns at most `n` bytes, exactly `n` when the image holds them all, and then the image's bytes at that offset |
| Gcfs.Mount | src/gcfs.c:249-409 | `gcfs_init` as a function: the first failure, or the metadata text and the entries in insertion order. It has no contract of its own; `MountFailures`, `MountSuccess`, `MountTree` and `MountMetadata` state what it is |
| Gcfs.DolOffset | src/gcfs.c:339 | `main_dol_offset`, the big-endian word at header offset 0x420. It has no contract of its own; `LocateExecutable` uses it |
| Gcfs.FstOffset | src/gcfs.c:367 | `fst_chunk`, the big-endian word at header offset 0x424. It has no contract of its own; `ReadTable` uses it |
| Gcfs.RecordCount | src/gcfs.c:378 | `file_record_count`, the third field of the first record. It has no contract of its own; `FstTableCount` states that the table holds that many records |
| Gcfs.FstTable | src/gcfs.c:378-400 | the `12N` record bytes at `fst_chunk`, the image, and `filename_base_offset` right after the records. It has no contract of its own; `FstTableCount` and `ReadTable` state what it is |
| Gcfs.MountFailures | src/gcfs.c:277-399 | mounting succeeds exactly when `ReachesWalk` holds: every read gets all it asks for, the record count is above 0, and `12N` is below 2^31. It fails on the header when the image is shorter than 0x440 bytes, on the executable header when the 256 bytes at the DOL offset are missing, and on the first record when its 12 bytes are missing. It fails on the remaining records when the count is 0, when `12N` is 2^31 or more, or when the `12N` bytes are missing |
| Gcfs.FstTableCount | src/gcfs.c:378-399 | the table read has `file_record_count` records, and the decoded table holds them |
| Gcfs.MountSuccess | src/gcfs.c:249-409 | a mount that reaches the walk serves the metadata text. Its tree is the metadata entry, then the executable entry, then the walk of `[2, N]` from an empty prefix |
| Gcfs.MountTree | src/gcfs.c:400-406 | for nested subtrees, a mounted tree is the two synthetic entries followed by one entry per file record of `[2, N]`, in record order, with the ancestors' names as path |
| Gcfs.MountVisitsEveryRecord | src/gcfs.c:404-406 | the top-level walk visits every record of `[2, N]` once, in order |
| Gcfs.MountMetadata | src/gcfs.c:291-316 | the metadata of a mounted image is shorter than 2047 bytes, holds no NUL, and parses back into the codes, the publisher name and the title |
| Gcfs.MetadataEntry | src/gcfs.c:315-316 | the `.metadata` entry: the name with its terminator, as `sizeof` counts it, offset 0 and the text's length |
| Gcfs.ExecutableEntry | src/gcfs.c:321-364 | the executable entry: the sanitised title followed by `-exe.dol`, the DOL offset from 0x420, and the section maximum of the DOL header |
| Gcfs.GcfsFile.constructor | src/gcfs.c:275-289 | the image, its size, an empty tree and an empty metadata string |
| Gcfs.GcfsFile.Append | src/gcfs.c:293-310 | one append puts the piece after the metadata string and a terminator after it, and leaves the tree alone |
| Gcfs.GcfsFile.AppendCodeLines | src/gcfs.c:292-304 | the game-code line and the publisher code up to ` (` are appended, rendered printable |
| Gcfs.GcfsFile.AppendTitleLines | src/gcfs.c:306-310 | the closing parenthesis, CRLF, the title label, the title and CRLF are appended |
| Gcfs.GcfsFile.LoadMetadata | src/gcfs.c:291-313 | after the final `strlen`, the metadata buffer holds exactly the metadata text |
| Gcfs.GcfsFile.Insert | src/gcfs.c:315-316 | `tree_insert` appends to the tree and leaves the metadata alone |
| Gcfs.GcfsFile.Read | src/gcfs.c:104-115 | the metadata read, with the copy taken from `offset`: nothing at or past the end, otherwise `min(count, size - offset)` bytes from `offset` |
| Gcfs.GcfsFile.Init | src/gcfs.c:249-409 | `gcfs_init` returns null exactly when `Mount` fails. Otherwise it returns a fresh object whose metadata and tree are those of `Mount` |
| Gcfs.LocateExecutable | src/gcfs.c:321-364 | the executable entry is the name from the title, the DOL offset from 0x420 and the section maximum. There is none exactly when the 256-byte header read comes back short |
| Gcfs.ReadTable | src/gcfs.c:366-400 | the table is the `12N` record bytes at the offset from 0x424, with the names based right after them. There is none exactly when `ReachesWalk` fails: a record read comes back short, the count is 0, or `12N` is 2^31 or more |
| Gcfs.WalkTable | src/gcfs.c:400-406 | the records of `[2, N]` are walked from an empty name buffer, inserting the entries of the functional walk |

## Left out

- `tree.c` (`tree_insert`, `tree_getattr`, `tree_open`, `tree_read`, `tree_readdir`, `tree_free`) is not part of this model. An insertion is a `(path, offset, size)` triple appended to a sequence.
- FUSE plumbing is left out:
  - `fuse_get_context` and `fuse_exit`;
  - the `gcfs_operations` table;
  - `gcfs_getattr`, `gcfs_open`, `gcfs_opendir` and `gcfs_readdir`, which forward to the tree or answer for `.metadata` with constants;
  - `gcfs_destroy`.
- `getuid`/`getgid`, the `fstat` timestamps, the `stderr` messages and the `close`/`free` calls on failure paths are left out. None of them changes what is decoded.
- The pthread mutex around the metadata copy is left out; concurrency is not modelled.
- The two `malloc` failures are left out. A memory allocator is not modelled.
- `Gcfs.Mount`: the `int` values of `file_record_count` and `file_records_size` are not modelled. A count of 0, or a count whose byte size `12N` is 2^31 or more, is treated as a failed read of the remaining records (`RecordsShort`).
  - A count of 0, or a count of 2^31 or more whose negative `int` value times 12 still fits an `int`, makes `file_records_size - 12` negative. `read` returns -1 or a count of bytes, never that negative number, so the C fails there too, if `malloc` has not failed first.
  - Any other count of that kind overflows `file_record_count * 12`, which is undefined behaviour in C. With a wrapping multiplication, some such counts would not fail. 0x80000001 wraps to 12, and the C then mounts only the two synthetic entries. 0x15555557 wraps to 20, and the walk then reads past `file_records`. The model does not follow the wrap.
- `Gcfs.GcfsFile.Init`: requires `Walkable` for the table it reaches.
  - Every directory must end its subtree at or after itself and at or before record `N`. An end before the directory, including a third field of 2^31 or more that becomes a negative `int`, makes the recursion return a negative count, so the C moves `i` backwards or never stops. An end past `N` makes the C read records past the end of `file_records`.
  - Names must end inside the image.
  - Every path must fit the 1024-byte name buffer.
- `DirectoryWalk.ReadName`: requires the name to end inside the image and to stop before the last buffer index. A name that runs to the end of the image leaves a stale byte from the failed `read` in the buffer. A name reaching index 1023 makes the post-increment in `name_index++ < NAME_MAX_SIZE - 1` write the terminator one byte past the buffer.
- `DirectoryTable.WalkIsFileEntries`, `VisitsAreInterval` and `PathsFitWalk` assume nested subtrees (`Laminar`): a directory inside another directory's subtree ends no later than it. The functional walk itself only needs `DirsForward`.
- `Gcfs.GcfsFile.Read`: a negative `off_t` offset is not modelled (offsets are `nat`).
- `Gcfs.GcfsFile.Read`: copies from `offset`, which is the corrected read of the src/gcfs.c:112 finding, not line 112 as written. The written copy from the start of the metadata is modelled separately as `Metadata.ReadAsWritten`.
- `Gcfs.GcfsFile.Append`, `Gcfs.GcfsFile.AppendCodeLines` and `Gcfs.GcfsFile.LoadMetadata`: the character loops of lines 295-297 and 301-303 are modelled with the terminator rewritten after them, so the metadata is a plain concatenation. The unterminated writes the C performs are modelled separately, for the game-code loop only, as `Metadata.CodeBytesAsWritten` and `Metadata.GameCodeLineAsWritten`. The publisher-code loop has the same shape.
- `isprint`, `isalnum`, `isupper` and `tolower` take their C-locale ASCII meanings. Signed `char` is not modelled: a byte of 0x80 or above is neither printable nor alphanumeric either way.

## Findings

| source | as written | input that shows it | evidently intended | confidence | as-written member | corrected member |
|---|---|---|---|---|---|---|
| src/gcfs.c:112 | `memcpy(buf, metadata, size)` copies from the start of the metadata whatever `offset` is | any image; a read of `.metadata` with offset 1 and count 1 returns `G` instead of `a` | copy from `metadata + offset` | not executed | Metadata.ReadAsWrittenIgnoresOffset | Metadata.ReadsReassemble |
| src/gcfs.c:295-298 | the game-code bytes are written with `metadata[metadata_size++]` and no terminator, so the `strncat` of CRLF appends after whatever bytes `malloc` left after them | a metadata buffer whose byte 15 is `x` and byte 16 is NUL gives `Game code: ` + codes + `x` + CRLF | terminate the string after the codes, so the CRLF follows them directly | not executed | Metadata.GameCodeLineWithLeftoverX | Gcfs.GcfsFile.AppendCodeLines |
