/** The directory-table walker of src/gcfs.c as the C writes it: a loop over record indices that
    reads each name byte by byte into one shared 1024-byte name buffer, recurses into directories
    and skips over their subtrees by the count the recursion returns. `tree_insert` is modelled by
    returning the inserted entries, in call order. */
module DirectoryWalk {
  import opened ByteOrder
  import opened CType
  import opened DirectoryTable

  /** The name loop of `gcfs_recurse_directory`: read bytes of the image from `at` into the name
      buffer from index `p` on while they are printable, then overwrite the first non-printable one
      with a terminator. The requirements exclude the two cases where the C misbehaves: a name that
      runs into the end of the image (the failed `read` leaves a stale byte), and a name that reaches
      the last buffer index (the post-increment in `name_index++ < NAME_MAX_SIZE - 1` then writes
      the terminator past the buffer). */
  method ReadName(image: seq<byte>, at: nat, nameBuf: array<byte>, p: nat) returns (nameIndex: nat)
    requires nameBuf.Length == NameMaxSize
    requires at < |image| && at + |PrintableRun(image, at)| < |image|
    requires p + |PrintableRun(image, at)| < NameMaxSize
    modifies nameBuf
    ensures nameIndex == p + |PrintableRun(image, at)|
    ensures nameBuf[..nameIndex] == old(nameBuf[..p]) + PrintableRun(image, at)
    ensures nameBuf[nameIndex] == NUL
  {
    ghost var name := PrintableRun(image, at);
    ghost var prefix := nameBuf[..p];
    PrintableRunStops(image, at);
    ghost var run := image[at..at + |name| + 1];
    assert name == run[..|name|] && !IsPrint(run[|name|]);
    nameIndex := p;
    nameBuf[nameIndex] := image[at];
    while IsPrint(nameBuf[nameIndex]) && nameIndex < NameMaxSize - 1
      invariant p <= nameIndex <= p + |name|
      invariant forall k :: 0 <= k < p ==> nameBuf[k] == prefix[k]
      invariant forall k :: p <= k < nameIndex ==> nameBuf[k] == name[k - p]
      invariant nameBuf[nameIndex] == run[nameIndex - p]
      decreases NameMaxSize - nameIndex
    {
      assert nameIndex - p < |name|;
      nameIndex := nameIndex + 1;
      nameBuf[nameIndex] := image[at + nameIndex - p];
    }
    assert nameIndex == p + |name|;
    nameBuf[nameIndex] := NUL;
    assert forall k :: 0 <= k < nameIndex ==> nameBuf[..nameIndex][k] == (prefix + name)[k];
  }

  lemma PrintableAppend(a: seq<byte>, b: seq<byte>)
    requires Printable(a) && Printable(b)
    ensures Printable(a + b)
  {
  }

  /** Lines 167-173 of `gcfs_recurse_directory`: the three fields of record `i`, the directory flag
      checked and cleared, and the base offset added in unsigned 32-bit arithmetic. */
  method DecodeRecord(t: Table, i: int) returns (filenameOffset: nat, fileOffset: nat, fileSize: nat, isDir: bool)
    requires HasRecord(t, i)
    ensures filenameOffset == NameOffset(t, i) && filenameOffset < Two32
    ensures fileOffset == FileOffset(t, i) && fileSize == FileSize(t, i)
    ensures isDir == IsDir(t, i)
  {
    filenameOffset := BE32(t.records, RecordSize * (i - 1));
    fileOffset := BE32(t.records, RecordSize * (i - 1) + 4);
    fileSize := BE32(t.records, RecordSize * (i - 1) + 8);
    isDir := (filenameOffset / DirFlag) % 2 == 1;
    if isDir {
      filenameOffset := filenameOffset - DirFlag;
    }
    filenameOffset := (filenameOffset + t.base) % Two32;
  }

  /** Decoding record `i` gives node `i`: its flag, offset and size, and where its name starts in
      the image, which holds the whole name and the byte that ends it. */
  method DecodeNode(t: Table, ghost ns: seq<Node>, i: int) returns (filenameOffset: nat, fileOffset: nat, fileSize: nat, isDir: bool)
    requires Decodes(t, ns) && NamesTerminated(t) && 2 <= i <= |ns|
    ensures isDir == At(ns, i).isDir && fileOffset == At(ns, i).offset && fileSize == At(ns, i).size
    ensures filenameOffset < |t.image| && filenameOffset + |At(ns, i).name| < |t.image|
    ensures At(ns, i).name == PrintableRun(t.image, filenameOffset)
    ensures Printable(At(ns, i).name)
  {
    NodeFields(t, ns, i);
    filenameOffset, fileOffset, fileSize, isDir := DecodeRecord(t, i);
  }

  /** `gcfs_recurse_directory(buffer, s, e, name_buffer, p, fd, filename_base_offset, root)`, with
      `t` holding `buffer`, the image behind `fd` and the base offset, and `ns` the records of `t`
      decoded. It returns `e - s + 1`, leaves the first `p` bytes of the name buffer as they were,
      and inserts exactly the entries of the functional `Walk` from the prefix held in those bytes.
      `visited` records, in order, every index the loop body runs for here and in the calls it
      makes: it is `Visits(ns, s, e)`. */
  method RecurseDirectory(t: Table, ghost ns: seq<Node>, s: int, e: int, nameBuf: array<byte>, p: nat)
      returns (count: int, inserted: seq<Entry>, ghost visited: seq<int>)
    requires nameBuf.Length == NameMaxSize && p < NameMaxSize
    requires Decodes(t, ns) && DirsForward(ns) && NamesTerminated(t)
    requires 2 <= s <= |ns| + 1 && e <= |ns|
    requires Printable(nameBuf[..p])
    requires Fits(ns, s, e, p)
    modifies nameBuf
    ensures count == e - s + 1
    ensures nameBuf[..p] == old(nameBuf[..p])
    ensures inserted == Walk(ns, s, e, old(nameBuf[..p]))
    ensures visited == Visits(ns, s, e)
    decreases |ns| + 1 - s, 2
  {
    ghost var prefix := nameBuf[..p];
    inserted := [];
    visited := [];
    var i := s;
    while i <= e
      invariant s <= i <= |ns| + 1
      invariant nameBuf[..p] == prefix
      invariant Printable(nameBuf[..p])
      invariant inserted + Walk(ns, i, e, prefix) == Walk(ns, s, e, prefix)
      invariant visited + Visits(ns, i, e) == Visits(ns, s, e)
      invariant Fits(ns, i, e, p)
      decreases |ns| + 1 - i
    {
      var skip, added, below := VisitRecord(t, ns, i, e, nameBuf, p);
      assert nameBuf[..p][..p] == nameBuf[..p];
      ConcatAssociates(inserted, added, Walk(ns, i + skip + 1, e, prefix));
      VisitsStep(ns, i, e, skip, below);
      ConcatAssociates(visited, [i] + below, Visits(ns, i + skip + 1, e));
      inserted := inserted + added;
      visited := visited + ([i] + below);
      i := i + skip;
      i := i + 1;
    }
    count := e - s + 1;
  }

  /** The body of the loop of `gcfs_recurse_directory` for record `i`: decode it, read its name after
      the prefix, then either recurse into the directory or insert the file. It returns how far `i`
      moves before the loop's own increment, the entries it inserted and, for a directory, the indices
      the recursion visited. It leaves the prefix alone: the walk from `i` is those entries followed by
      the walk after them. */
  method VisitRecord(t: Table, ghost ns: seq<Node>, i: int, e: int, nameBuf: array<byte>, p: nat)
      returns (skip: int, added: seq<Entry>, ghost below: seq<int>)
    requires nameBuf.Length == NameMaxSize && p < NameMaxSize
    requires Decodes(t, ns) && DirsForward(ns) && NamesTerminated(t)
    requires 2 <= i <= e <= |ns|
    requires Printable(nameBuf[..p])
    requires Fits(ns, i, e, p)
    modifies nameBuf
    ensures skip == if At(ns, i).isDir then At(ns, i).size - i else 0
    ensures nameBuf[..p] == old(nameBuf[..p])
    ensures Walk(ns, i, e, old(nameBuf[..p])) == added + Walk(ns, i + skip + 1, e, old(nameBuf[..p]))
    ensures below == if At(ns, i).isDir then Visits(ns, i + 1, At(ns, i).size) else []
    ensures Fits(ns, i + skip + 1, e, p)
    decreases |ns| + 1 - i, 1
  {
    ghost var prefix := nameBuf[..p];
    var filenameOffset, fileOffset, fileSize, isDir := DecodeNode(t, ns, i);
    var nameIndex := ReadName(t.image, filenameOffset, nameBuf, p);
    assert nameBuf[..p] == nameBuf[..nameIndex][..p];
    PrintableAppend(prefix, At(ns, i).name);
    if isDir {
      skip, added, below := EnterDirectory(t, ns, i, e, nameBuf, p, nameIndex, fileSize);
    } else {
      added := InsertFile(ns, i, e, nameBuf, p, nameIndex, fileOffset, fileSize);
      skip := 0;
      below := [];
    }
  }

  /** Lines 185-190 for a directory record `i` whose name follows the prefix in the buffer: append
      `/`, handle records `i + 1` to the directory's `file_size` under the longer prefix, and skip them. */
  method EnterDirectory(t: Table, ghost ns: seq<Node>, i: int, e: int, nameBuf: array<byte>, p: nat, nameIndex: nat, fileSize: nat)
      returns (skip: int, added: seq<Entry>, ghost below: seq<int>)
    requires nameBuf.Length == NameMaxSize && p < NameMaxSize
    requires Decodes(t, ns) && DirsForward(ns) && NamesTerminated(t)
    requires 2 <= i <= e <= |ns| && At(ns, i).isDir && fileSize == At(ns, i).size
    requires nameIndex == p + |At(ns, i).name| && nameIndex < nameBuf.Length
    requires nameBuf[..nameIndex] == nameBuf[..p] + At(ns, i).name && Printable(nameBuf[..nameIndex])
    requires Fits(ns, i, e, p)
    modifies nameBuf
    ensures skip == At(ns, i).size - i
    ensures nameBuf[..p] == old(nameBuf[..p])
    ensures Walk(ns, i, e, old(nameBuf[..p])) == added + Walk(ns, i + skip + 1, e, old(nameBuf[..p]))
    ensures below == Visits(ns, i + 1, At(ns, i).size)
    ensures Fits(ns, i + skip + 1, e, p)
    decreases |ns| + 1 - i, 0
  {
    ghost var prefix := nameBuf[..p];
    WalkAtDirectory(ns, i, e, prefix, p);
    var next := AppendSlash(nameBuf, nameIndex);
    PrintableAppend(nameBuf[..nameIndex], [Slash]);
    assert nameBuf[..next] == prefix + At(ns, i).name + [Slash];
    skip, added, below := RecurseDirectory(t, ns, i + 1, fileSize, nameBuf, next);
    assert nameBuf[..p] == nameBuf[..next][..p];
  }

  /** Lines 191-197 for a file record `i` whose terminated name follows the prefix in the buffer:
      insert the path up to the terminator with the record's offset and size. */
  method InsertFile(ghost ns: seq<Node>, i: int, e: int, nameBuf: array<byte>, p: nat, nameIndex: nat, fileOffset: nat, fileSize: nat)
      returns (added: seq<Entry>)
    requires DirsForward(ns) && 2 <= i <= e <= |ns| && !At(ns, i).isDir
    requires fileOffset == At(ns, i).offset && fileSize == At(ns, i).size
    requires p <= nameIndex < nameBuf.Length && nameBuf[nameIndex] == NUL
    requires nameBuf[..nameIndex] == nameBuf[..p] + At(ns, i).name && Printable(nameBuf[..nameIndex])
    requires Fits(ns, i, e, p)
    ensures Walk(ns, i, e, nameBuf[..p]) == added + Walk(ns, i + 1, e, nameBuf[..p])
    ensures Fits(ns, i + 1, e, p)
  {
    WalkAtFile(ns, i, e, nameBuf[..p], p);
    var path := InsertedPath(nameBuf, nameIndex);
    added := [Entry(path, fileOffset, fileSize)];
  }

  /** Lines 186-187: a directory's name gets a `/` and a new terminator. */
  method AppendSlash(nameBuf: array<byte>, nameIndex: nat) returns (next: nat)
    requires nameIndex + 1 < nameBuf.Length
    modifies nameBuf
    ensures next == nameIndex + 1
    ensures nameBuf[..next] == old(nameBuf[..nameIndex]) + [Slash] && nameBuf[next] == NUL
  {
    nameBuf[nameIndex] := Slash;
    next := nameIndex + 1;
    nameBuf[next] := NUL;
  }

  /** Lines 194-195: the path handed to `tree_insert` is a copy of the name buffer up to `strlen`,
      which is the whole printable prefix in front of the terminator at `nameIndex`. */
  method InsertedPath(nameBuf: array<byte>, nameIndex: nat) returns (path: seq<byte>)
    requires nameIndex < nameBuf.Length && nameBuf[nameIndex] == NUL && Printable(nameBuf[..nameIndex])
    ensures path == nameBuf[..nameIndex]
  {
    var copy := nameBuf[..];
    assert forall k :: 0 <= k < nameIndex ==> copy[k] == nameBuf[..nameIndex][k];
    StrLenAt(copy, nameIndex);
    path := copy[..StrLen(copy)];
  }

  /** Record `i` of the decoded table carries the record's own fields and the name read from the
      image, which ends inside it. */
  lemma NodeFields(t: Table, ns: seq<Node>, i: int)
    requires Decodes(t, ns) && 2 <= i <= |ns| && NamesTerminated(t)
    ensures HasRecord(t, i) && At(ns, i) == NodeOf(t, i)
    ensures NameOffset(t, i) < |t.image|
    ensures At(ns, i).name == PrintableRun(t.image, NameOffset(t, i))
    ensures NameOffset(t, i) + |At(ns, i).name| < |t.image|
    ensures Printable(At(ns, i).name)
  {
    PrintableRunStops(t.image, NameOffset(t, i));
  }

  /** One loop step at a directory: the walk from `i` is the subtree's walk under the extended
      prefix followed by the walk after the subtree, and both fit the buffer. */
  lemma WalkAtDirectory(ns: seq<Node>, i: int, e: int, prefix: seq<byte>, p: nat)
    requires DirsForward(ns) && 2 <= i <= e <= |ns| && At(ns, i).isDir && Fits(ns, i, e, p)
    ensures i <= At(ns, i).size <= |ns|
    ensures Walk(ns, i, e, prefix) ==
      Walk(ns, i + 1, At(ns, i).size, prefix + At(ns, i).name + [Slash]) + Walk(ns, At(ns, i).size + 1, e, prefix)
    ensures p + |At(ns, i).name| + 1 < NameMaxSize
    ensures Fits(ns, i + 1, At(ns, i).size, p + |At(ns, i).name| + 1) && Fits(ns, At(ns, i).size + 1, e, p)
  {
  }

  /** One loop step at a file: the walk from `i` is the file's entry followed by the walk from
      `i + 1`, which fits the buffer. */
  lemma WalkAtFile(ns: seq<Node>, i: int, e: int, prefix: seq<byte>, p: nat)
    requires DirsForward(ns) && 2 <= i <= e <= |ns| && !At(ns, i).isDir && Fits(ns, i, e, p)
    ensures Walk(ns, i, e, prefix) == [Entry(prefix + At(ns, i).name, At(ns, i).offset, At(ns, i).size)] + Walk(ns, i + 1, e, prefix)
    ensures p + |At(ns, i).name| < NameMaxSize && Fits(ns, i + 1, e, p)
  {
  }
}
