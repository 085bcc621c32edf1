/** `gcfs_init` and the metadata branch of `gcfs_read` in src/gcfs.c: the mount-time decoding of a
    GameCube disc image into the `struct gcfsfile` that the file-system callbacks then serve.
    The image behind `fd` is an immutable byte sequence; `lseek` followed by `read` takes the bytes
    from an offset up to a count or the end of the image. */
module Gcfs {
  import opened ByteOrder
  import opened CType
  import opened DirectoryTable
  import opened Wrappers
  import M = Metadata
  import X = Executable
  import W = DirectoryWalk

  /** Where the disc header holds the offset of the boot executable and of the directory table. */
  const MainDolOffsetAt: nat := 0x420
  const FstOffsetAt: nat := 0x424

  /** `METADATA_FILE_NAME` */
  const MetadataFileName: seq<byte> := Ascii(".metadata")

  /** `file_record_count * 12` is an `int`: a byte size of 2^31 or more does not fit. */
  const IntLimit: nat := 0x8000_0000

  /** The four reads of `gcfs_init` that return NULL when they come back short. */
  datatype InitError = HeaderShort | ExecutableHeaderShort | FirstRecordShort | RecordsShort

  datatype Result<T> = Success(value: T) | Failure(error: InitError)

  /** What a mounted image serves: the metadata text and the `tree_insert` calls, in order. */
  datatype MountState = MountState(metadata: seq<byte>, tree: seq<Entry>)

  /** `lseek(fd, at, SEEK_SET)` then `read(fd, buf, n)`: the bytes from `at`, as many as the image has
      up to `n`. The read returns `n` exactly when the image holds all of them. */
  function ReadAt(image: seq<byte>, at: nat, n: nat): (r: seq<byte>)
    ensures |r| <= n
    ensures |r| == n <==> at + n <= |image| || n == 0
    ensures at + n <= |image| ==> r == image[at..at + n]
  {
    if at >= |image| then [] else image[at..at + Min(n, |image| - at)]
  }

  /** The header fields read from the first 0x440 bytes. */
  function DolOffset(image: seq<byte>): (at: nat)
    requires |image| >= M.HeaderSize
  {
    BE32(image, MainDolOffsetAt)
  }

  function FstOffset(image: seq<byte>): (at: nat)
    requires |image| >= M.HeaderSize
  {
    BE32(image, FstOffsetAt)
  }

  /** `file_record_count`: the third field of the first record. */
  function RecordCount(image: seq<byte>): (n: nat)
    requires |image| >= M.HeaderSize && FstOffset(image) + RecordSize <= |image|
  {
    BE32(image, FstOffset(image) + 8)
  }

  /** Every read of `gcfs_init` gets all it asks for, so the walk over the directory table starts. */
  predicate ReachesWalk(image: seq<byte>)
  {
    |image| >= M.HeaderSize
    && DolOffset(image) + X.DolHeaderSize <= |image|
    && FstOffset(image) + RecordSize <= |image|
    && 0 < RecordCount(image) && RecordSize * RecordCount(image) < IntLimit
    && FstOffset(image) + RecordSize * RecordCount(image) <= |image|
  }

  /** The records as read into `file_records`, with the names starting right after them. */
  function FstTable(image: seq<byte>): (t: Table)
    requires ReachesWalk(image)
  {
    var fst, n := FstOffset(image), RecordCount(image);
    Table(image[fst..fst + RecordSize * n], image, fst + RecordSize * n)
  }

  /** What the walk needs of the table: directories end their subtrees ahead of themselves, names end
      inside the image, and no path outgrows the name buffer. */
  predicate WellFormed(t: Table)
  {
    1 <= Count(t) && DirsForward(Nodes(t)) && NamesTerminated(t) && Fits(Nodes(t), 2, Count(t), 0)
  }

  predicate Walkable(image: seq<byte>)
  {
    ReachesWalk(image) ==> WellFormed(FstTable(image))
  }

  /** The metadata entry is inserted with `sizeof(METADATA_FILE_NAME)` bytes, its terminator included. */
  function MetadataEntry(text: seq<byte>): Entry
  {
    Entry(MetadataFileName + [NUL], 0, |text|)
  }

  function ExecutableEntry(image: seq<byte>): Entry
    requires |image| >= M.HeaderSize && DolOffset(image) + X.DolHeaderSize <= |image|
  {
    var dol := DolOffset(image);
    Entry(X.Sanitize(image[M.TitleOffset..M.TitleOffset + M.TitleSize]) + X.ExeSuffix, dol,
          X.ExecutableSize(image[dol..dol + X.DolHeaderSize]))
  }

  /** `gcfs_init` on an image: the first read that comes back short, or the metadata and the inserted
      entries. */
  function Mount(image: seq<byte>): Result<MountState>
    requires Walkable(image)
  {
    if |ReadAt(image, 0, M.HeaderSize)| != M.HeaderSize then Failure(HeaderShort)
    else if |ReadAt(image, DolOffset(image), X.DolHeaderSize)| != X.DolHeaderSize then Failure(ExecutableHeaderShort)
    else if |ReadAt(image, FstOffset(image), RecordSize)| != RecordSize then Failure(FirstRecordShort)
    else
      var n := RecordCount(image);
      if n == 0 || RecordSize * n >= IntLimit
         || |ReadAt(image, FstOffset(image) + RecordSize, RecordSize * n - RecordSize)| != RecordSize * n - RecordSize
      then Failure(RecordsShort)
      else
        var text := M.MetadataText(image[..M.HeaderSize]);
        var t := FstTable(image);
        Success(MountState(text, [MetadataEntry(text), ExecutableEntry(image)] + Walk(Nodes(t), 2, n, [])))
  }

  /** Mounting fails exactly when one of the reads comes back short, or when the record count is 0
      or its byte size does not fit an `int`, and with the first such failure. */
  lemma MountFailures(image: seq<byte>)
    requires Walkable(image)
    ensures Mount(image).Success? <==> ReachesWalk(image)
    ensures Mount(image) == Failure(HeaderShort) <==> |image| < M.HeaderSize
    ensures Mount(image) == Failure(ExecutableHeaderShort) <==>
      |image| >= M.HeaderSize && DolOffset(image) + X.DolHeaderSize > |image|
    ensures Mount(image) == Failure(FirstRecordShort) <==>
      |image| >= M.HeaderSize && DolOffset(image) + X.DolHeaderSize <= |image| && FstOffset(image) + RecordSize > |image|
    ensures Mount(image) == Failure(RecordsShort) <==>
      |image| >= M.HeaderSize && DolOffset(image) + X.DolHeaderSize <= |image| && FstOffset(image) + RecordSize <= |image|
      && (RecordCount(image) == 0 || RecordSize * RecordCount(image) >= IntLimit
          || FstOffset(image) + RecordSize * RecordCount(image) > |image|)
  {
  }

  /** The table read has `file_record_count` records, and the decoded table holds them. */
  lemma FstTableCount(image: seq<byte>)
    requires ReachesWalk(image)
    ensures Count(FstTable(image)) == RecordCount(image)
    ensures Decodes(FstTable(image), Nodes(FstTable(image)))
  {
    NodesDecode(FstTable(image));
  }

  /** A mounted image serves the metadata entry, then the executable entry, then one entry per file
      record of `[2, N]` in record order, whose path is its ancestors' names, each followed by `/`,
      then its own name, and whose offset and size are the record's own fields. */
  lemma {:induction false} MountTree(image: seq<byte>)
    requires Walkable(image) && ReachesWalk(image) && Laminar(Nodes(FstTable(image)))
    ensures Mount(image).Success?
    ensures Mount(image).value.tree ==
      [MetadataEntry(Mount(image).value.metadata), ExecutableEntry(image)]
      + FileEntries(Nodes(FstTable(image)), 2, 2, RecordCount(image), [])
  {
    var t := FstTable(image);
    FstTableCount(image);
    WalkIsFileEntries(Nodes(t), 2, Count(t), []);
  }

  /** The walk visits every record of `[2, N]` once, in order. */
  lemma {:induction false} MountVisitsEveryRecord(image: seq<byte>)
    requires Walkable(image) && ReachesWalk(image) && Laminar(Nodes(FstTable(image)))
    ensures Visits(Nodes(FstTable(image)), 2, RecordCount(image)) == Interval(2, RecordCount(image))
  {
    var t := FstTable(image);
    FstTableCount(image);
    VisitsAreInterval(Nodes(t), 2, Count(t));
  }

  /** The metadata of a mounted image is shorter than its buffer, holds no terminator, and gives back
      the rendered codes, the publisher's name and the title it was built from. */
  lemma MountMetadata(image: seq<byte>)
    requires Walkable(image) && ReachesWalk(image)
    ensures Mount(image).Success?
    ensures |Mount(image).value.metadata| < M.MetadataFileMaxSize - 1
    ensures NUL !in Mount(image).value.metadata
    ensures M.ParseMetadata(Mount(image).value.metadata) ==
      Some(M.MetadataFields(M.GameCode(image[..M.HeaderSize]), M.PublisherCode(image[..M.HeaderSize]),
                              M.PublisherLine(image[..M.HeaderSize]), M.TitleText(image[..M.HeaderSize])))
  {
    var ws := image[..M.HeaderSize];
    M.MetadataTextHasNoNul(ws);
    M.MetadataRoundTrip(ws);
  }

  /** The open image of `struct gcfsfile`: the image behind `fd`, its size, the metadata buffer and
      its length, and the entries inserted into `tree`. */
  class GcfsFile {
    const image: seq<byte>
    const size: nat
    const metadata: array<byte>
    var metadataSize: nat
    var tree: seq<Entry>

    ghost predicate Valid()
      reads this, metadata
    {
      size == |image| && metadata.Length == M.MetadataFileMaxSize && metadataSize < metadata.Length
    }

    /** The bytes of the metadata file. */
    function Metadata(): seq<byte>
      reads this, metadata
      requires Valid()
    {
      metadata[..metadataSize]
    }

    /** The fields set before the metadata is loaded: `fd`, `size` from `lseek(fd, 0, SEEK_END)`,
        an empty tree and an empty metadata string. */
    constructor (image: seq<byte>)
      ensures Valid() && this.image == image && fresh(metadata)
      ensures metadataSize == 0 && tree == []
    {
      this.image := image;
      size := |image|;
      metadata := new byte[M.MetadataFileMaxSize];
      metadataSize := 0;
      tree := [];
    }

    /** One `strcat`, or one of the character loops, onto the metadata string: the bytes go after it
        and a terminator after them. The C loops of lines 295-297 and 301-303 leave the terminator
        out; this is the corrected form (`Metadata.GameCodeLineAsWritten` is the written one). */
    method Append(piece: seq<byte>)
      requires Valid() && metadataSize + |piece| < metadata.Length
      modifies this, metadata
      ensures Valid() && tree == old(tree)
      ensures Metadata() == old(Metadata()) + piece && metadata[metadataSize] == NUL
    {
      for k := 0 to |piece|
        modifies metadata
        invariant metadata[..metadataSize + k] == old(metadata[..metadataSize]) + piece[..k]
      {
        metadata[metadataSize + k] := piece[k];
        assert metadata[..metadataSize + k + 1] == metadata[..metadataSize + k] + [piece[k]];
        assert piece[..k + 1] == piece[..k] + [piece[k]];
      }
      assert piece[..|piece|] == piece;
      metadataSize := metadataSize + |piece|;
      metadata[metadataSize] := NUL;
    }

    /** Lines 290-313 of `gcfs_init`: the metadata text assembled piece by piece from the header,
        the last byte of the buffer cleared, and the length taken with `strlen`. */
    method LoadMetadata(ws: seq<byte>)
      requires Valid() && |ws| == M.HeaderSize
      modifies this, metadata
      ensures Valid() && tree == old(tree)
      ensures Metadata() == M.MetadataText(ws)
    {
      metadata[0] := NUL;
      metadataSize := 0;
      assert Metadata() == [];
      AppendCodeLines(ws);
      assert Metadata() == M.CodeLines(ws);
      Append(M.PublisherLine(ws));
      AppendTitleLines(ws);
      ghost var text := Metadata();
      assert text == M.MetadataText(ws);
      metadata[M.MetadataFileMaxSize - 1] := NUL;
      assert metadata[..metadataSize] == text;
      M.MetadataTextHasNoNul(ws);
      assert forall k :: 0 <= k < metadataSize ==> metadata[..][k] == text[k];
      StrLenAt(metadata[..], metadataSize);
      metadataSize := StrLen(metadata[..]);
    }

    /** Lines 292-304: the game code and the publisher code, each byte rendered printable. */
    method AppendCodeLines(ws: seq<byte>)
      requires Valid() && |ws| == M.HeaderSize && metadataSize + |M.CodeLines(ws)| < metadata.Length
      modifies this, metadata
      ensures Valid() && tree == old(tree)
      ensures Metadata() == old(Metadata()) + M.CodeLines(ws) && metadata[metadataSize] == NUL
    {
      ghost var start := Metadata();
      var gameCode := M.GameCode(ws);
      var publisherCode := M.PublisherCode(ws);
      Append(M.GameCodeLabel);
      ghost var done := M.GameCodeLabel;
      Append(gameCode);
      ConcatAssociates(start, done, gameCode);
      done := done + gameCode;
      Append(M.CRLF);
      ConcatAssociates(start, done, M.CRLF);
      done := done + M.CRLF;
      Append(M.PublisherCodeLabel);
      ConcatAssociates(start, done, M.PublisherCodeLabel);
      done := done + M.PublisherCodeLabel;
      Append(publisherCode);
      ConcatAssociates(start, done, publisherCode);
      done := done + publisherCode;
      Append(M.OpenParen);
      ConcatAssociates(start, done, M.OpenParen);
    }

    /** Lines 306-310: the closing parenthesis and the title line. */
    method AppendTitleLines(ws: seq<byte>)
      requires Valid() && |ws| == M.HeaderSize && metadataSize + |M.TitleLines(ws)| < metadata.Length
      modifies this, metadata
      ensures Valid() && tree == old(tree)
      ensures Metadata() == old(Metadata()) + M.TitleLines(ws) && metadata[metadataSize] == NUL
    {
      ghost var start := Metadata();
      Append(M.CloseParen);
      ghost var done := M.CloseParen;
      Append(M.CRLF);
      ConcatAssociates(start, done, M.CRLF);
      done := done + M.CRLF;
      Append(M.TitleLabel);
      ConcatAssociates(start, done, M.TitleLabel);
      done := done + M.TitleLabel;
      Append(M.TitleText(ws));
      ConcatAssociates(start, done, M.TitleText(ws));
      done := done + M.TitleText(ws);
      Append(M.CRLF);
      ConcatAssociates(start, done, M.CRLF);
    }

    /** `tree_insert` for each of `entries`, in order. */
    method Insert(entries: seq<Entry>)
      modifies this
      ensures tree == old(tree) + entries && metadataSize == old(metadataSize)
    {
      tree := tree + entries;
    }

    /** The metadata branch of `gcfs_read`, with the copy taken from `offset`: nothing at or past the
        end, otherwise the bytes from `offset` up to the count or the end. */
    method Read(offset: nat, count: nat) returns (data: seq<byte>)
      requires Valid()
      ensures data == M.MetadataRead(Metadata(), offset, count)
      ensures |data| <= count && (offset < metadataSize ==> |data| == Min(count, metadataSize - offset))
      ensures data == metadata[Min(offset, metadataSize)..Min(offset, metadataSize) + |data|]
    {
      if offset >= metadataSize {
        return [];
      }
      var size := count;
      if offset + size >= metadataSize {
        size := metadataSize - offset;
      }
      data := metadata[offset..offset + size];
    }

    /** `gcfs_init`: null when a read comes back short, otherwise the open image with the metadata and
        the entries of `Mount`. */
    static method Init(image: seq<byte>) returns (fs: GcfsFile?)
      requires Walkable(image)
      ensures fs == null <==> Mount(image).Failure?
      ensures fs != null ==> fresh(fs) && fs.Valid() && fs.image == image
      ensures fs != null ==> fs.Metadata() == Mount(image).value.metadata && fs.tree == Mount(image).value.tree
    {
      MountFailures(image);
      var ws := ReadAt(image, 0, M.HeaderSize);
      if |ws| != M.HeaderSize {
        return null;
      }
      var gcfs := new GcfsFile(image);
      gcfs.LoadMetadata(ws);
      ghost var text := M.MetadataText(ws);
      assert |text| == gcfs.metadataSize;
      gcfs.Insert([Entry(MetadataFileName + [NUL], 0, gcfs.metadataSize)]);
      assert gcfs.tree == [MetadataEntry(text)];
      var exe := LocateExecutable(image, ws);
      if exe.None? {
        return null;
      }
      gcfs.Insert([exe.value]);
      assert gcfs.tree == [MetadataEntry(text), ExecutableEntry(image)];
      var inserted := WalkTable(image, ws);
      if inserted.None? {
        return null;
      }
      gcfs.Insert(inserted.value);
      assert gcfs.tree == [MetadataEntry(text), ExecutableEntry(image)] + inserted.value;
      MountSuccess(image);
      fs := gcfs;
    }
  }

  /** A mount that reaches the walk serves the metadata text, its entry, the executable's entry and the
      walk's entries. */
  lemma MountSuccess(image: seq<byte>)
    requires Walkable(image) && ReachesWalk(image)
    ensures Mount(image) == Success(MountState(M.MetadataText(image[..M.HeaderSize]),
      [MetadataEntry(M.MetadataText(image[..M.HeaderSize])), ExecutableEntry(image)]
      + Walk(Nodes(FstTable(image)), 2, RecordCount(image), [])))
  {
  }

  /** Lines 321-364 of `gcfs_init`: the executable's file name from the title, then its header read at
      the offset in the disc header and its size from the section table. Nothing when the header read
      comes back short. */
  method LocateExecutable(image: seq<byte>, ws: seq<byte>) returns (entry: Option<Entry>)
    requires |image| >= M.HeaderSize && ws == image[..M.HeaderSize]
    ensures entry.None? <==> DolOffset(image) + X.DolHeaderSize > |image|
    ensures entry.Some? ==> entry.value == ExecutableEntry(image)
  {
    var mainDolFilename := X.MainDolFilename(ws[M.TitleOffset..M.TitleOffset + M.TitleSize]);
    var mainDolOffset := BE32(ws, MainDolOffsetAt);
    BE32OfSlice(image, 0, M.HeaderSize, MainDolOffsetAt);
    var dolHeader := ReadAt(image, mainDolOffset, X.DolHeaderSize);
    if |dolHeader| != X.DolHeaderSize {
      return None;
    }
    var maxDolSectionOffset := X.DolSize(dolHeader);
    assert ws[M.TitleOffset..M.TitleOffset + M.TitleSize] == image[M.TitleOffset..M.TitleOffset + M.TitleSize];
    entry := Some(Entry(mainDolFilename, mainDolOffset, maxDolSectionOffset));
  }

  /** Lines 367-399 of `gcfs_init`: the first record at the offset in the disc header, the count in
      its third field, and the rest of the records after it. Nothing when a read comes back short. */
  method ReadTable(image: seq<byte>, ws: seq<byte>) returns (table: Option<Table>)
    requires |image| >= M.HeaderSize && ws == image[..M.HeaderSize]
    requires DolOffset(image) + X.DolHeaderSize <= |image|
    ensures table.None? <==> !ReachesWalk(image)
    ensures table.Some? ==> table.value == FstTable(image)
  {
    var fstChunk := BE32(ws, FstOffsetAt);
    BE32OfSlice(image, 0, M.HeaderSize, FstOffsetAt);
    var first := ReadAt(image, fstChunk, RecordSize);
    if |first| != RecordSize {
      return None;
    }
    var fileRecordCount := BE32(first, 8);
    BE32OfSlice(image, fstChunk, fstChunk + RecordSize, 8);
    if fileRecordCount == 0 || RecordSize * fileRecordCount >= IntLimit {
      return None;
    }
    var fileRecordsSize := RecordSize * fileRecordCount;
    var rest := ReadAt(image, fstChunk + RecordSize, fileRecordsSize - RecordSize);
    if |rest| != fileRecordsSize - RecordSize {
      return None;
    }
    var fileRecords := first + rest;
    assert fileRecords == image[fstChunk..fstChunk + fileRecordsSize];
    var filenameBaseOffset := fstChunk + fileRecordsSize;
    table := Some(Table(fileRecords, image, filenameBaseOffset));
  }

  /** Lines 400-406 of `gcfs_init`: walk records 2 to `file_record_count` from an empty name buffer. */
  method WalkTable(image: seq<byte>, ws: seq<byte>) returns (inserted: Option<seq<Entry>>)
    requires |image| >= M.HeaderSize && ws == image[..M.HeaderSize]
    requires DolOffset(image) + X.DolHeaderSize <= |image|
    requires Walkable(image)
    ensures inserted.None? <==> !ReachesWalk(image)
    ensures inserted.Some? ==> inserted.value == Walk(Nodes(FstTable(image)), 2, RecordCount(image), [])
  {
    var table := ReadTable(image, ws);
    if table.None? {
      return None;
    }
    var t := table.value;
    var nameBuffer := new byte[NameMaxSize];
    nameBuffer[0] := NUL;
    FstTableCount(image);
    var _, walked, _ := W.RecurseDirectory(t, Nodes(t), 2, Count(t), nameBuffer, 0);
    inserted := Some(walked);
  }
}
