/** The GameCube file-system table (FST) that `gcfs_recurse_directory` in src/gcfs.c walks: 12-byte
    records numbered from 1, each with three big-endian 32-bit fields, and the names they point to in
    the string table that follows the records. This module decodes the records, defines the walk as a
    function, and proves it equal to an independent description of the files a table holds. */
module DirectoryTable {
  import opened ByteOrder
  import opened CType

  /** The size of a record in bytes. */
  const RecordSize: nat := 12

  /** Bit 24 of the first field, `0x01000000`, marks a directory. */
  const DirFlag: nat := 0x0100_0000

  /** `NAME_MAX_SIZE`: the shared name buffer, terminator included. */
  const NameMaxSize: nat := 1024

  /** The records as the mount code holds them in `file_records`, the disc image the names are read
      from, and `filename_base_offset`, the image offset just past the records. */
  datatype Table = Table(records: seq<byte>, image: seq<byte>, base: nat)

  /** The number of whole records in the table. */
  function Count(t: Table): (n: nat)
    ensures RecordSize * n <= |t.records|
  {
    |t.records| / RecordSize
  }

  predicate HasRecord(t: Table, i: int)
  {
    1 <= i <= Count(t)
  }

  /** The first field of record `i`: the name offset, with the directory flag in bit 24. */
  function NameWord(t: Table, i: int): (w: nat)
    requires HasRecord(t, i)
    ensures w < Two32
  {
    BE32(t.records, RecordSize * (i - 1))
  }

  /** The second field: `file_offset`, where a file's contents start in the image. */
  function FileOffset(t: Table, i: int): (w: nat)
    requires HasRecord(t, i)
    ensures w < Two32
  {
    BE32(t.records, RecordSize * (i - 1) + 4)
  }

  /** The third field: `file_size`, a file's length, or for a directory the index of the last record
      of its subtree. */
  function FileSize(t: Table, i: int): (w: nat)
    requires HasRecord(t, i)
    ensures w < Two32
  {
    BE32(t.records, RecordSize * (i - 1) + 8)
  }

  /** `filename_offset & 0x01000000` */
  predicate IsDir(t: Table, i: int)
    requires HasRecord(t, i)
  {
    (NameWord(t, i) / DirFlag) % 2 == 1
  }

  /** The first field with the directory flag cleared, `filename_offset &= ~0x01000000`. */
  function NameField(t: Table, i: int): (w: nat)
    requires HasRecord(t, i)
    ensures w < Two32 && (w / DirFlag) % 2 == 0
    ensures w + (if IsDir(t, i) then DirFlag else 0) == NameWord(t, i)
  {
    if IsDir(t, i) then NameWord(t, i) - DirFlag else NameWord(t, i)
  }

  /** Where the name of record `i` starts in the image: the cleared field plus the base, in the
      unsigned 32-bit arithmetic of `filename_offset`. */
  function NameOffset(t: Table, i: int): (at: nat)
    requires HasRecord(t, i)
    ensures at < Two32
  {
    (NameField(t, i) + t.base) % Two32
  }

  /** How many bytes of `s` from `at` on are printable before the first one that is not, or before
      the end of `s`. */
  function RunLength(s: seq<byte>, at: nat): (n: nat)
    requires at <= |s|
    ensures at + n <= |s|
    decreases |s| - at
  {
    if at == |s| || !IsPrint(s[at]) then 0 else 1 + RunLength(s, at + 1)
  }

  /** The bytes of `s` from `at` up to the first byte that is not printable, or to the end of `s`. */
  function PrintableRun(s: seq<byte>, at: nat): (run: seq<byte>)
    requires at <= |s|
    ensures |run| == RunLength(s, at)
  {
    s[at..at + RunLength(s, at)]
  }

  /** The run is all printable and stops at a byte that is not, unless it stops at the end. */
  lemma {:induction false} PrintableRunStops(s: seq<byte>, at: nat)
    requires at <= |s|
    ensures Printable(PrintableRun(s, at))
    ensures at + RunLength(s, at) < |s| ==> !IsPrint(s[at + RunLength(s, at)])
    decreases |s| - at
  {
    if at < |s| && IsPrint(s[at]) {
      PrintableRunStops(s, at + 1);
      assert PrintableRun(s, at) == [s[at]] + PrintableRun(s, at + 1);
    }
  }

  /** The name of record `i` as the name loop reads it from the image. */
  function Name(t: Table, i: int): (name: seq<byte>)
    requires HasRecord(t, i)
  {
    if NameOffset(t, i) <= |t.image| then PrintableRun(t.image, NameOffset(t, i)) else []
  }

  lemma NameIsPrintable(t: Table, i: int)
    requires HasRecord(t, i)
    ensures Printable(Name(t, i))
  {
    if NameOffset(t, i) <= |t.image| {
      PrintableRunStops(t.image, NameOffset(t, i));
    }
  }

  /** The directory flag is the low bit of the record's first byte. */
  lemma DirFlagIsLowBitOfFirstByte(t: Table, i: int)
    requires HasRecord(t, i)
    ensures IsDir(t, i) <==> t.records[RecordSize * (i - 1)] % 2 == 1
  {
    var at := RecordSize * (i - 1);
    var rest := t.records[at + 1] as int * 0x1_0000 + t.records[at + 2] as int * 0x100 + t.records[at + 3];
    assert NameWord(t, i) == t.records[at] as int * DirFlag + rest;
    assert NameWord(t, i) / DirFlag == t.records[at];
  }

  /** The 12 bytes of a record with the given fields. */
  function EncodeRecord(nameWord: nat, offset: nat, size: nat): (r: seq<byte>)
    requires nameWord < Two32 && offset < Two32 && size < Two32
    ensures |r| == RecordSize
  {
    BE32Bytes(nameWord) + BE32Bytes(offset) + BE32Bytes(size)
  }

  /** Record `i` decodes from bytes `12(i-1)`, `+4` and `+8`: the fields of an encoded record come
      back out of any table that holds it at that position. */
  lemma DecodeEncodedRecord(t: Table, i: int, nameWord: nat, offset: nat, size: nat)
    requires nameWord < Two32 && offset < Two32 && size < Two32
    requires 1 <= i && RecordSize * i <= |t.records|
    requires t.records[RecordSize * (i - 1)..RecordSize * i] == EncodeRecord(nameWord, offset, size)
    ensures HasRecord(t, i)
    ensures NameWord(t, i) == nameWord && FileOffset(t, i) == offset && FileSize(t, i) == size
    ensures IsDir(t, i) <==> (nameWord / DirFlag) % 2 == 1
  {
    var at := RecordSize * (i - 1);
    assert at + RecordSize == RecordSize * i;
    var r := EncodeRecord(nameWord, offset, size);
    assert r[0..4] == BE32Bytes(nameWord) && r[4..8] == BE32Bytes(offset) && r[8..12] == BE32Bytes(size);
    FieldOfRecord(t.records, at, r, 0, nameWord);
    FieldOfRecord(t.records, at, r, 4, offset);
    FieldOfRecord(t.records, at, r, 8, size);
  }

  /** A field of a record held in `records` at `at` decodes to the value encoded there. */
  lemma FieldOfRecord(records: seq<byte>, at: nat, r: seq<byte>, k: nat, v: nat)
    requires |r| == RecordSize && at + RecordSize <= |records| && records[at..at + RecordSize] == r
    requires k + 4 <= RecordSize && v < Two32 && r[k..k + 4] == BE32Bytes(v)
    ensures BE32(records, at + k) == v
  {
    BE32OfBytes(v);
    BE32OfSlice(r, k, k + 4, 0);
    BE32OfSlice(records, at, at + RecordSize, k);
  }

  /** Record `i` as the walker sees it: whether it is a directory, its name, and its second and
      third fields. */
  datatype Node = Node(isDir: bool, name: seq<byte>, offset: nat, size: nat)

  function NodeOf(t: Table, i: int): Node
    requires HasRecord(t, i)
  {
    Node(IsDir(t, i), Name(t, i), FileOffset(t, i), FileSize(t, i))
  }

  /** The decoded table: record `i` is element `i - 1`. */
  function Nodes(t: Table): (ns: seq<Node>)
  {
    seq(Count(t), j requires 0 <= j < Count(t) => NodeOf(t, j + 1))
  }

  /** `ns` holds record `i` of `t` at position `i`: the decoded table, stated pointwise. */
  predicate Decodes(t: Table, ns: seq<Node>)
  {
    |ns| == Count(t) && forall i {:trigger NodeOf(t, i)} :: 1 <= i <= |ns| ==> HasRecord(t, i) && At(ns, i) == NodeOf(t, i)
  }

  lemma NodesDecode(t: Table)
    ensures Decodes(t, Nodes(t))
  {
    forall i | 1 <= i <= Count(t)
      ensures HasRecord(t, i) && At(Nodes(t), i) == NodeOf(t, i)
    {
      var j := i - 1;
      assert Nodes(t)[j] == NodeOf(t, j + 1);
    }
  }

  /** Record `i` of the decoded table. */
  function At(ns: seq<Node>, i: int): Node
    requires 1 <= i <= |ns|
  {
    ns[i - 1]
  }

  /** Every directory record in `[s, e]` ends its subtree at or after itself and at or before `e`. */
  predicate Closed(ns: seq<Node>, s: int, e: int)
  {
    1 <= s && e <= |ns| &&
    forall j :: s <= j <= e && At(ns, j).isDir ==> j <= At(ns, j).size <= e
  }

  /** What the walker needs to terminate: every directory of the top-level range `[2, N]` ends its
      subtree between itself and the last record. Without it the C moves `i` backwards. */
  predicate DirsForward(ns: seq<Node>)
  {
    Closed(ns, 2, |ns|)
  }

  /** Subtrees nest: a directory inside another directory's subtree ends no later than it. */
  predicate Laminar(ns: seq<Node>)
  {
    forall i, j :: 2 <= i < j <= |ns| && At(ns, i).isDir && At(ns, j).isDir && j <= At(ns, i).size ==>
      At(ns, j).size <= At(ns, i).size
  }

  /** One `tree_insert(root, path, len, offset, size)` call: the path bytes and the two numbers. */
  datatype Entry = Entry(path: seq<byte>, offset: nat, size: nat)

  /** The insertions that `gcfs_recurse_directory(buffer, i, e, name_buffer, |prefix|, ...)` makes
      from loop index `i` on, when `prefix` is in the name buffer: a file inserts the prefix and its
      name; a directory appends its name and `/`, recurses over `[i+1, size]`, and the loop carries
      on after its subtree. */
  function Walk(ns: seq<Node>, i: int, e: int, prefix: seq<byte>): seq<Entry>
    requires DirsForward(ns) && 2 <= i <= |ns| + 1 && e <= |ns|
    decreases |ns| + 1 - i
  {
    if i > e then []
    else
      var n := At(ns, i);
      if n.isDir then Walk(ns, i + 1, n.size, prefix + n.name + [Slash]) + Walk(ns, n.size + 1, e, prefix)
      else [Entry(prefix + n.name, n.offset, n.size)] + Walk(ns, i + 1, e, prefix)
  }

  /** The indices the loop body runs for, in the top call and in the calls it makes. */
  function Visits(ns: seq<Node>, i: int, e: int): seq<int>
    requires DirsForward(ns) && 2 <= i <= |ns| + 1 && e <= |ns|
    decreases |ns| + 1 - i
  {
    if i > e then []
    else if At(ns, i).isDir then [i] + Visits(ns, i + 1, At(ns, i).size) + Visits(ns, At(ns, i).size + 1, e)
    else [i] + Visits(ns, i + 1, e)
  }

  /** `[s, s+1, ..., e]` */
  function Interval(s: int, e: int): (r: seq<int>)
    ensures |r| == if s <= e then e - s + 1 else 0
    decreases e - s
  {
    if s > e then [] else [s] + Interval(s + 1, e)
  }

  /** The directory names, each followed by `/`, of the directories in `[lo, j)` whose subtree holds
      record `j`, outermost first. */
  function AncestorPath(ns: seq<Node>, lo: int, j: int): seq<byte>
    requires 1 <= lo && j <= |ns| + 1
    decreases j - lo
  {
    if lo >= j then []
    else (if At(ns, lo).isDir && j <= At(ns, lo).size then At(ns, lo).name + [Slash] else []) + AncestorPath(ns, lo + 1, j)
  }

  /** The reference description of what the walk of `[s, e]` inserts: one entry per file record in
      `[s, e]`, in index order, whose path is `prefix`, the names of its ancestors from `lo` on, and
      its own name, and whose offset and size are the record's. Directories insert nothing. */
  function FileEntries(ns: seq<Node>, lo: int, s: int, e: int, prefix: seq<byte>): seq<Entry>
    requires 1 <= lo && 1 <= s && e <= |ns|
    decreases e + 1 - s
  {
    if s > e then []
    else
      EntryOf(ns, lo, s, prefix) + FileEntries(ns, lo, s + 1, e, prefix)
  }

  /** What record `s` contributes: nothing for a directory, its one entry for a file. */
  function EntryOf(ns: seq<Node>, lo: int, s: int, prefix: seq<byte>): seq<Entry>
    requires 1 <= lo && 1 <= s <= |ns|
  {
    var n := At(ns, s);
    if n.isDir then [] else [Entry(prefix + AncestorPath(ns, lo, s) + n.name, n.offset, n.size)]
  }

  /** The reference description cut at `m`. */
  lemma {:induction false} FileEntriesSplit(ns: seq<Node>, lo: int, s: int, m: int, e: int, prefix: seq<byte>)
    requires 1 <= lo && 1 <= s && s - 1 <= m <= e <= |ns|
    ensures FileEntries(ns, lo, s, e, prefix) == FileEntries(ns, lo, s, m, prefix) + FileEntries(ns, lo, m + 1, e, prefix)
    decreases m - s
  {
    if s <= m {
      FileEntriesSplit(ns, lo, s + 1, m, e, prefix);
      ConcatAssociates(EntryOf(ns, lo, s, prefix), FileEntries(ns, lo, s + 1, m, prefix), FileEntries(ns, lo, m + 1, e, prefix));
    } else {
      assert FileEntries(ns, lo, s, m, prefix) == [];
    }
  }

  /** Directories in `[lo, m)` that all end before `j` are not ancestors of `j`. */
  lemma {:induction false} AncestorSkip(ns: seq<Node>, lo: int, m: int, j: int)
    requires 1 <= lo <= m <= j <= |ns| + 1
    requires forall d :: lo <= d < m && At(ns, d).isDir ==> At(ns, d).size < j
    ensures AncestorPath(ns, lo, j) == AncestorPath(ns, m, j)
    decreases m - lo
  {
    if lo < m {
      AncestorSkip(ns, lo + 1, m, j);
    }
  }

  lemma {:induction false} FileEntriesSkip(ns: seq<Node>, lo: int, m: int, s: int, e: int, prefix: seq<byte>)
    requires 1 <= lo <= m <= s <= |ns| + 1 && e <= |ns|
    requires forall d :: lo <= d < m && At(ns, d).isDir ==> At(ns, d).size < s
    ensures FileEntries(ns, lo, s, e, prefix) == FileEntries(ns, m, s, e, prefix)
    decreases e + 1 - s
  {
    if s <= e {
      AncestorSkip(ns, lo, m, s);
      assert EntryOf(ns, lo, s, prefix) == EntryOf(ns, m, s, prefix);
      FileEntriesSkip(ns, lo, m, s + 1, e, prefix);
    }
  }

  /** A part `x` that every ancestor path in `[s, e]` starts with can move into the prefix. */
  lemma {:induction false} FileEntriesShift(ns: seq<Node>, lo: int, lo': int, s: int, e: int, prefix: seq<byte>, x: seq<byte>)
    requires 1 <= lo && 1 <= lo' && 1 <= s && e <= |ns|
    requires forall j :: s <= j <= e ==> AncestorPath(ns, lo, j) == x + AncestorPath(ns, lo', j)
    ensures FileEntries(ns, lo, s, e, prefix) == FileEntries(ns, lo', s, e, prefix + x)
    decreases e + 1 - s
  {
    if s <= e {
      assert prefix + AncestorPath(ns, lo, s) == (prefix + x) + AncestorPath(ns, lo', s);
      FileEntriesShift(ns, lo, lo', s + 1, e, prefix, x);
    }
  }

  /** A closed range with nested subtrees splits at a directory into its subtree and the rest. */
  lemma ClosedParts(ns: seq<Node>, s: int, e: int)
    requires Laminar(ns) && Closed(ns, s, e) && 2 <= s <= e && At(ns, s).isDir
    ensures Closed(ns, s + 1, At(ns, s).size) && Closed(ns, At(ns, s).size + 1, e)
    ensures forall d :: s <= d < At(ns, s).size + 1 && At(ns, d).isDir ==> At(ns, d).size < At(ns, s).size + 1
  {
  }

  /** The walk inserts exactly the reference entries: for a closed range with nested subtrees, the
      walk of `[s, e]` from `prefix` is one entry per file record, in index order, each with the
      ancestors' names, its own name, its offset and its size. */
  lemma {:induction false} WalkIsFileEntries(ns: seq<Node>, s: int, e: int, prefix: seq<byte>)
    requires DirsForward(ns) && Laminar(ns) && 2 <= s <= |ns| + 1 && Closed(ns, s, e)
    ensures Walk(ns, s, e, prefix) == FileEntries(ns, s, s, e, prefix)
    decreases |ns| + 1 - s
  {
    if s <= e {
      var n, next := At(ns, s), s + 1;
      if n.isDir {
        ClosedParts(ns, s, e);
        WalkIsFileEntries(ns, next, n.size, prefix + n.name + [Slash]);
        WalkIsFileEntries(ns, n.size + 1, e, prefix);
        DirectoryEntries(ns, s, e, prefix);
      } else {
        WalkIsFileEntries(ns, next, e, prefix);
        FileEntry(ns, s, e, prefix);
      }
    }
  }

  /** The directory step of `WalkIsFileEntries`: the reference entries of `[s, e]` are those of the
      subtree, with the directory's name moved into the prefix, followed by those after it. */
  lemma DirectoryEntries(ns: seq<Node>, s: int, e: int, prefix: seq<byte>)
    requires DirsForward(ns) && 2 <= s <= e <= |ns| && At(ns, s).isDir && At(ns, s).size <= e
    requires Closed(ns, s, At(ns, s).size)
    requires Walk(ns, s + 1, At(ns, s).size, prefix + At(ns, s).name + [Slash])
             == FileEntries(ns, s + 1, s + 1, At(ns, s).size, prefix + At(ns, s).name + [Slash])
    requires Walk(ns, At(ns, s).size + 1, e, prefix) == FileEntries(ns, At(ns, s).size + 1, At(ns, s).size + 1, e, prefix)
    ensures Walk(ns, s, e, prefix) == FileEntries(ns, s, s, e, prefix)
  {
    var n, next := At(ns, s), s + 1;
    var f := n.size;
    FileEntriesSplit(ns, s, s, f, e, prefix);
    SubtreeEntries(ns, s, prefix);
    FileEntriesSkip(ns, s, f + 1, f + 1, e, prefix);
    var px := prefix + n.name + [Slash];
    calc {
      Walk(ns, s, e, prefix);
      Walk(ns, next, f, px) + Walk(ns, f + 1, e, prefix);
      FileEntries(ns, next, next, f, px) + FileEntries(ns, f + 1, f + 1, e, prefix);
      FileEntries(ns, s, s, f, prefix) + FileEntries(ns, s, f + 1, e, prefix);
      FileEntries(ns, s, s, e, prefix);
    }
  }

  /** The subtree of directory `s`: its own record inserts nothing, and its name moves into the
      prefix of every record below it. */
  lemma SubtreeEntries(ns: seq<Node>, s: int, prefix: seq<byte>)
    requires 2 <= s <= |ns| && At(ns, s).isDir && s <= At(ns, s).size <= |ns|
    ensures FileEntries(ns, s, s, At(ns, s).size, prefix)
            == FileEntries(ns, s + 1, s + 1, At(ns, s).size, prefix + At(ns, s).name + [Slash])
  {
    var n, next := At(ns, s), s + 1;
    var f, x := n.size, n.name + [Slash];
    assert prefix + n.name + [Slash] == prefix + x;
    assert FileEntries(ns, s, s, f, prefix) == FileEntries(ns, s, next, f, prefix);
    forall j | next <= j <= f
      ensures AncestorPath(ns, s, j) == x + AncestorPath(ns, next, j)
    {
    }
    FileEntriesShift(ns, s, next, next, f, prefix, x);
  }

  /** The file step of `WalkIsFileEntries`: its entry, then the reference entries after it. */
  lemma FileEntry(ns: seq<Node>, s: int, e: int, prefix: seq<byte>)
    requires DirsForward(ns) && 2 <= s <= e && Closed(ns, s, e) && !At(ns, s).isDir
    requires Walk(ns, s + 1, e, prefix) == FileEntries(ns, s + 1, s + 1, e, prefix)
    ensures Walk(ns, s, e, prefix) == FileEntries(ns, s, s, e, prefix)
  {
    var n := At(ns, s);
    assert prefix + AncestorPath(ns, s, s) + n.name == prefix + n.name;
    FileEntriesSkip(ns, s, s + 1, s + 1, e, prefix);
  }

  /** An interval cut at `m`. */
  lemma {:induction false} IntervalSplit(s: int, m: int, e: int)
    requires s - 1 <= m <= e
    ensures Interval(s, e) == Interval(s, m) + Interval(m + 1, e)
    decreases m - s
  {
    if s <= m {
      IntervalSplit(s + 1, m, e);
    }
  }

  /** The walk of a closed range with nested subtrees runs its loop body once for each index of the
      range, in order, and for no other index. */
  lemma {:induction false} VisitsAreInterval(ns: seq<Node>, s: int, e: int)
    requires DirsForward(ns) && Laminar(ns) && 2 <= s <= |ns| + 1 && Closed(ns, s, e)
    ensures Visits(ns, s, e) == Interval(s, e)
    decreases |ns| + 1 - s
  {
    if s <= e {
      if At(ns, s).isDir {
        var f := At(ns, s).size;
        ClosedParts(ns, s, e);
        VisitsAreInterval(ns, s + 1, f);
        VisitsAreInterval(ns, f + 1, e);
        VisitsOfDirectory(ns, s, e);
      } else {
        VisitsAreInterval(ns, s + 1, e);
        assert Interval(s, e) == [s] + Interval(s + 1, e);
      }
    }
  }

  /** The step of `VisitsAreInterval` at a directory whose subtree ends inside the range. */
  lemma VisitsOfDirectory(ns: seq<Node>, s: int, e: int)
    requires DirsForward(ns) && 2 <= s <= e <= |ns| && At(ns, s).isDir && s <= At(ns, s).size <= e
    requires Visits(ns, s + 1, At(ns, s).size) == Interval(s + 1, At(ns, s).size)
    requires Visits(ns, At(ns, s).size + 1, e) == Interval(At(ns, s).size + 1, e)
    ensures Visits(ns, s, e) == Interval(s, e)
  {
    var f := At(ns, s).size;
    VisitsUnfold(ns, s, e);
    IntervalUnfold(s, e);
    IntervalSplit(s + 1, f, e);
    ConcatAssociates([s], Interval(s + 1, f), Interval(f + 1, e));
  }

  /** One step of the loop body at `i`: the index itself, then for a directory the indices below it,
      then the indices after the records it skips. */
  lemma VisitsStep(ns: seq<Node>, i: int, e: int, skip: int, below: seq<int>)
    requires DirsForward(ns) && 2 <= i <= e <= |ns|
    requires skip == if At(ns, i).isDir then At(ns, i).size - i else 0
    requires below == if At(ns, i).isDir then Visits(ns, i + 1, At(ns, i).size) else []
    ensures Visits(ns, i, e) == [i] + below + Visits(ns, i + skip + 1, e)
  {
    if At(ns, i).isDir {
      VisitsUnfold(ns, i, e);
    } else {
      VisitsFileUnfold(ns, i, e);
      assert [i] + below == [i];
    }
  }

  lemma VisitsFileUnfold(ns: seq<Node>, s: int, e: int)
    requires DirsForward(ns) && 2 <= s <= e <= |ns| && !At(ns, s).isDir
    ensures Visits(ns, s, e) == [s] + Visits(ns, s + 1, e)
  {
  }

  lemma VisitsUnfold(ns: seq<Node>, s: int, e: int)
    requires DirsForward(ns) && 2 <= s <= e <= |ns| && At(ns, s).isDir
    ensures Visits(ns, s, e) == [s] + Visits(ns, s + 1, At(ns, s).size) + Visits(ns, At(ns, s).size + 1, e)
  {
  }

  lemma IntervalUnfold(s: int, e: int)
    requires s <= e
    ensures Interval(s, e) == [s] + Interval(s + 1, e)
  {
  }

  lemma ConcatAssociates<T>(a: seq<T>, b: seq<T>, c: seq<T>)
    ensures a + b + c == a + (b + c)
  {
  }

  /** Every record the walk of `[i, e]` from a prefix of `p` bytes reaches leaves room in the name
      buffer for its name, a slash if it is a directory, and the terminator. */
  predicate Fits(ns: seq<Node>, i: int, e: int, p: nat)
    requires DirsForward(ns) && 2 <= i <= |ns| + 1 && e <= |ns|
    decreases |ns| + 1 - i
  {
    if i > e then true
    else
      var n := At(ns, i);
      if n.isDir then
        p + |n.name| + 1 < NameMaxSize && Fits(ns, i + 1, n.size, p + |n.name| + 1) && Fits(ns, n.size + 1, e, p)
      else p + |n.name| < NameMaxSize && Fits(ns, i + 1, e, p)
  }

  /** The room record `j` needs: `p` bytes of prefix, its ancestors' names from `s` on, its own name,
      and a slash if it is a directory, all before the terminator. */
  predicate PathFits(ns: seq<Node>, s: int, j: int, p: nat)
    requires 2 <= s <= j <= |ns|
  {
    p + |AncestorPath(ns, s, j)| + |At(ns, j).name| + (if At(ns, j).isDir then 1 else 0) < NameMaxSize
  }

  /** Whole paths that fit the name buffer are enough for the walk never to overrun it. */
  lemma {:induction false} PathsFitWalk(ns: seq<Node>, s: int, e: int, p: nat)
    requires DirsForward(ns) && Laminar(ns) && 2 <= s <= |ns| + 1 && Closed(ns, s, e)
    requires forall j :: s <= j <= e ==> PathFits(ns, s, j, p)
    ensures Fits(ns, s, e, p)
    decreases |ns| + 1 - s
  {
    if s <= e {
      assert PathFits(ns, s, s, p);
      var n, next := At(ns, s), s + 1;
      if n.isDir {
        var after, q := n.size + 1, p + |n.name| + 1;
        ClosedParts(ns, s, e);
        forall j | next <= j < after
          ensures PathFits(ns, next, j, q)
        {
          assert PathFits(ns, s, j, p);
        }
        PathsFitWalk(ns, next, n.size, q);
        forall j | after <= j <= e
          ensures PathFits(ns, after, j, p)
        {
          assert PathFits(ns, s, j, p);
          AncestorSkip(ns, s, after, j);
        }
        PathsFitWalk(ns, after, e, p);
      } else {
        forall j | next <= j <= e
          ensures PathFits(ns, next, j, p)
        {
          assert PathFits(ns, s, j, p);
        }
        PathsFitWalk(ns, next, e, p);
      }
    }
  }

  /** Every name the walk reads is followed, inside the image, by a byte that ends it. */
  predicate NamesTerminated(t: Table)
  {
    forall i :: 2 <= i <= Count(t) ==> NameOffset(t, i) + |Name(t, i)| < |t.image|
  }
}
