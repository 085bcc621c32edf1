/** The synthetic entry for the boot executable (the DOL) in src/gcfs.c: its file name, made from the
    disc title, and its size, the farthest end of the sections its 256-byte header lists. */
module Executable {
  import opened ByteOrder
  import opened CType
  import M = Metadata

  /** `MAX_MAIN_DOL_FILENAME_SIZE`: the name buffer, terminator included. */
  const MaxMainDolFilenameSize: nat := 0x400
  const DolHeaderSize: nat := 256
  const TextSections: nat := 7
  const DataSections: nat := 10

  /** The suffix `strcat` appends to the sanitised title. */
  const ExeSuffix: seq<byte> := Ascii("-exe.dol")

  /** A byte that may appear before the suffix: a lower-case letter, a digit or a dash. */
  predicate IsNameByte(c: byte) { IsLower(c) || IsDigit(c) || c == Dash }

  /** What the filename loop writes for one title byte: a dash for a space, the lower-case form of an
      alphanumeric, and nothing for anything else. */
  function SanitizeByte(c: byte): (r: seq<byte>)
    ensures |r| <= 1
    ensures forall k :: 0 <= k < |r| ==> IsNameByte(r[k])
    ensures c == Space ==> r == [Dash]
    ensures IsAlnum(c) ==> r == [ToLower(c)]
    ensures c != Space && !IsAlnum(c) ==> r == []
  {
    if c == Space then [Dash]
    else if IsAlnum(c) then (if IsUpper(c) then [ToLower(c)] else [c])
    else []
  }

  /** The name the loop builds from a title: every title byte in order, through `SanitizeByte`. */
  function Sanitize(title: seq<byte>): (name: seq<byte>)
    ensures |name| <= |title|
    ensures forall k :: 0 <= k < |name| ==> IsNameByte(name[k])
  {
    if title == [] then []
    else Sanitize(title[..|title| - 1]) + SanitizeByte(title[|title| - 1])
  }

  /** One more title byte adds what `SanitizeByte` makes of it. */
  lemma SanitizeStep(title: seq<byte>, i: nat)
    requires i < |title|
    ensures Sanitize(title[..i + 1]) == Sanitize(title[..i]) + SanitizeByte(title[i])
  {
    assert title[..i + 1][..i] == title[..i];
  }

  /** Sanitising is done byte by byte, so it distributes over concatenation. */
  lemma {:induction false} SanitizeAppend(a: seq<byte>, b: seq<byte>)
    ensures Sanitize(a + b) == Sanitize(a) + Sanitize(b)
    decreases |b|
  {
    if b == [] {
      assert a + b == a;
    } else {
      var b' := b[..|b| - 1];
      assert (a + b)[..|a + b| - 1] == a + b';
      SanitizeAppend(a, b');
    }
  }

  /** A title already made of lower-case letters and digits is its own file name. */
  lemma {:induction false} SanitizeKeepsLowerAlnum(title: seq<byte>)
    requires forall k :: 0 <= k < |title| ==> IsLower(title[k]) || IsDigit(title[k])
    ensures Sanitize(title) == title
  {
    if title != [] {
      SanitizeKeepsLowerAlnum(title[..|title| - 1]);
    }
  }

  /** A title of spaces becomes the same number of dashes. */
  lemma {:induction false} SanitizeSpaces(title: seq<byte>)
    requires forall k :: 0 <= k < |title| ==> title[k] == Space
    ensures Sanitize(title) == seq(|title|, _ => Dash)
  {
    if title != [] {
      SanitizeSpaces(title[..|title| - 1]);
      assert seq(|title|, _ => Dash) == seq(|title| - 1, _ => Dash) + [Dash];
    }
  }

  /** Bytes that are neither a space nor alphanumeric are dropped. */
  lemma {:induction false} SanitizeDropsOthers(title: seq<byte>)
    requires forall k :: 0 <= k < |title| ==> title[k] != Space && !IsAlnum(title[k])
    ensures Sanitize(title) == []
  {
    if title != [] {
      SanitizeDropsOthers(title[..|title| - 1]);
    }
  }

  /** Case does not matter: lower-casing the title first gives the same name. */
  lemma {:induction false} SanitizeIgnoresCase(title: seq<byte>)
    ensures Sanitize(seq(|title|, k requires 0 <= k < |title| => ToLower(title[k]))) == Sanitize(title)
  {
    if title != [] {
      var lowered := seq(|title|, k requires 0 <= k < |title| => ToLower(title[k]));
      var init := title[..|title| - 1];
      assert lowered[..|title| - 1] == seq(|init|, k requires 0 <= k < |init| => ToLower(init[k]));
      SanitizeIgnoresCase(init);
    }
  }

  /** The filename loop of `gcfs_init` over the 0x3E0 title bytes, writing `main_dol_filename[j++]`,
      then the `-exe.dol` suffix. Every byte before the suffix is a lower-case letter, a digit or a
      dash, and the name with its terminator fits the 0x400-byte buffer. */
  method MainDolFilename(title: seq<byte>) returns (name: seq<byte>)
    requires |title| == M.TitleSize
    ensures name == Sanitize(title) + ExeSuffix
    ensures forall k :: 0 <= k < |name| - |ExeSuffix| ==> IsNameByte(name[k])
    ensures |name| <= M.TitleSize + |ExeSuffix| < MaxMainDolFilenameSize
  {
    var buffer := new byte[MaxMainDolFilenameSize];
    var j := SanitizeInto(title, buffer);
    buffer[j] := NUL;
    name := buffer[..j] + ExeSuffix;
  }

  /** The loop itself: `j` bytes written, the sanitised title. */
  method SanitizeInto(title: seq<byte>, buffer: array<byte>) returns (j: nat)
    requires |title| == M.TitleSize && buffer.Length == MaxMainDolFilenameSize
    modifies buffer
    ensures j <= M.TitleSize && buffer[..j] == Sanitize(title)
  {
    j := 0;
    for i := 0 to M.TitleSize
      invariant j <= i
      invariant buffer[..j] == Sanitize(title[..i])
    {
      SanitizeStep(title, i);
      var c := title[i];
      if c == Space {
        buffer[j] := Dash;
        j := j + 1;
      } else if IsAlnum(c) {
        if IsUpper(c) {
          buffer[j] := ToLower(c);
        } else {
          buffer[j] := c;
        }
        j := j + 1;
      }
    }
    assert title[..M.TitleSize] == title;
  }

  /** The end of one section, `section_offset + section_size` in unsigned 32-bit arithmetic. */
  function SectionEnd(h: seq<byte>, offsetAt: nat, sizeAt: nat): (end: nat)
    requires offsetAt + 4 <= |h| && sizeAt + 4 <= |h|
    ensures end < Two32
  {
    (BE32(h, offsetAt) + BE32(h, sizeAt)) % Two32
  }

  /** Text section `i`: offset at 0x00 + 4i, size at 0x90 + 4i. */
  function TextEnd(h: seq<byte>, i: nat): nat
    requires |h| == DolHeaderSize && i < TextSections
  {
    SectionEnd(h, 4 * i, 0x90 + 4 * i)
  }

  /** Data section `i`: offset at 0x1C + 4i, size at 0xAC + 4i. */
  function DataEnd(h: seq<byte>, i: nat): nat
    requires |h| == DolHeaderSize && i < DataSections
  {
    SectionEnd(h, 0x1C + 4 * i, 0xAC + 4 * i)
  }

  /** The running maximum the first loop keeps after `n` text sections, starting from 0. */
  function TextMax(h: seq<byte>, n: nat): nat
    requires |h| == DolHeaderSize && n <= TextSections
  {
    if n == 0 then 0
    else
      var m := TextMax(h, n - 1);
      if TextEnd(h, n - 1) > m then TextEnd(h, n - 1) else m
  }

  /** The running maximum after all text sections and `n` data sections. */
  function SectionMax(h: seq<byte>, n: nat): nat
    requires |h| == DolHeaderSize && n <= DataSections
  {
    if n == 0 then TextMax(h, TextSections)
    else
      var m := SectionMax(h, n - 1);
      if DataEnd(h, n - 1) > m then DataEnd(h, n - 1) else m
  }

  /** The size given to the executable entry. */
  function ExecutableSize(h: seq<byte>): (size: nat)
    requires |h| == DolHeaderSize
  {
    SectionMax(h, DataSections)
  }

  /** After `n` text sections the running maximum bounds each of their ends and is 0 or one of them. */
  lemma {:induction false} TextMaxIsMaximum(h: seq<byte>, n: nat)
    requires |h| == DolHeaderSize && n <= TextSections
    ensures forall i :: 0 <= i < n ==> TextEnd(h, i) <= TextMax(h, n)
    ensures TextMax(h, n) == 0 || exists i :: 0 <= i < n && TextMax(h, n) == TextEnd(h, i)
  {
    if n > 0 {
      TextMaxIsMaximum(h, n - 1);
    }
  }

  lemma {:induction false} SectionMaxIsMaximum(h: seq<byte>, n: nat)
    requires |h| == DolHeaderSize && n <= DataSections
    ensures forall i :: 0 <= i < TextSections ==> TextEnd(h, i) <= SectionMax(h, n)
    ensures forall i :: 0 <= i < n ==> DataEnd(h, i) <= SectionMax(h, n)
    ensures SectionMax(h, n) == 0 || (exists i :: 0 <= i < TextSections && SectionMax(h, n) == TextEnd(h, i))
                                  || (exists i :: 0 <= i < n && SectionMax(h, n) == DataEnd(h, i))
  {
    if n == 0 {
      TextMaxIsMaximum(h, TextSections);
    } else {
      SectionMaxIsMaximum(h, n - 1);
    }
  }

  /** The executable size is below 2^32, at least every one of the 17 section ends, and either 0 or one
      of those ends: the maximum of 0 and the section ends. */
  lemma ExecutableSizeIsMaximum(h: seq<byte>)
    requires |h| == DolHeaderSize
    ensures ExecutableSize(h) < Two32
    ensures forall i :: 0 <= i < TextSections ==> TextEnd(h, i) <= ExecutableSize(h)
    ensures forall i :: 0 <= i < DataSections ==> DataEnd(h, i) <= ExecutableSize(h)
    ensures ExecutableSize(h) == 0 || (exists i :: 0 <= i < TextSections && ExecutableSize(h) == TextEnd(h, i))
                                   || (exists i :: 0 <= i < DataSections && ExecutableSize(h) == DataEnd(h, i))
  {
    SectionMaxIsMaximum(h, DataSections);
  }

  /** The two section loops of `gcfs_init`: the largest end over 7 text and 10 data sections, or 0. */
  method DolSize(h: seq<byte>) returns (size: nat)
    requires |h| == DolHeaderSize
    ensures size == ExecutableSize(h)
    ensures forall i :: 0 <= i < TextSections ==> TextEnd(h, i) <= size
    ensures forall i :: 0 <= i < DataSections ==> DataEnd(h, i) <= size
    ensures size == 0 || (exists i :: 0 <= i < TextSections && size == TextEnd(h, i))
                      || (exists i :: 0 <= i < DataSections && size == DataEnd(h, i))
  {
    size := 0;
    for i := 0 to TextSections
      invariant size == TextMax(h, i)
    {
      var sectionOffset := BE32(h, 4 * i);
      var sectionSize := BE32(h, 0x90 + 4 * i);
      if (sectionOffset + sectionSize) % Two32 > size {
        size := (sectionOffset + sectionSize) % Two32;
      }
    }
    for i := 0 to DataSections
      invariant size == SectionMax(h, i)
    {
      var sectionOffset := BE32(h, 0x1C + 4 * i);
      var sectionSize := BE32(h, 0xAC + 4 * i);
      if (sectionOffset + sectionSize) % Two32 > size {
        size := (sectionOffset + sectionSize) % Two32;
      }
    }
    ExecutableSizeIsMaximum(h);
  }
}
