/** The synthetic `.metadata` file of src/gcfs.c: the publisher-code table, the text assembled from
    the disc header at mount time, and the clamp applied when the file is read. */
module Metadata {
  import opened ByteOrder
  import opened CType
  import opened Wrappers

  /** `METADATA_FILE_MAX_SIZE` (src/gcfs.h): the capacity of the metadata buffer, terminator included. */
  const MetadataFileMaxSize: nat := 2048

  /** The first 0x440 bytes of the image, read into `workspace`. */
  const HeaderSize: nat := 0x440
  const TitleOffset: nat := 0x20
  const TitleSize: nat := 0x3E0

  const CRLF: seq<byte> := [0x0D, 0x0A]
  const UnknownPublisher: string := "unknown publisher"

  /** The two-character codes that the publisher table knows. */
  const PublisherCodes: set<string> :=
    {"01", "08", "41", "4F", "51", "52", "5D", "5G", "64", "69", "6S", "8P", "A4", "AF", "B2", "DA", "EM"}

  predicate IsCode(c1: byte, c2: byte, code: string)
    requires |code| == 2
  {
    c1 == code[0] as int && c2 == code[1] as int
  }

  /** `gamecube_publisher_name`. Every name is short 7-bit text without a closing parenthesis, and the
      fallback name is returned exactly for the codes the table does not list. */
  function PublisherName(c1: byte, c2: byte): (name: string)
    ensures name == UnknownPublisher <==> [c1 as char, c2 as char] !in PublisherCodes
  {
    if IsCode(c1, c2, "01") then "Nintendo"
    else if IsCode(c1, c2, "08") then "Capcom"
    else if IsCode(c1, c2, "41") then "Ubisoft"
    else if IsCode(c1, c2, "4F") then "Eidos"
    else if IsCode(c1, c2, "51") then "Acclaim"
    else if IsCode(c1, c2, "52") then "Activision"
    else if IsCode(c1, c2, "5D") then "Midway"
    else if IsCode(c1, c2, "5G") then "Hudson"
    else if IsCode(c1, c2, "64") then "LucasArts"
    else if IsCode(c1, c2, "69") then "Electronic Arts"
    else if IsCode(c1, c2, "6S") then "TDK Mediactive"
    else if IsCode(c1, c2, "8P") then "Sega"
    else if IsCode(c1, c2, "A4") then "Mirage Studios"
    else if IsCode(c1, c2, "AF") then "Namco"
    else if IsCode(c1, c2, "B2") then "Bandai"
    else if IsCode(c1, c2, "DA") then "Tomy"
    else if IsCode(c1, c2, "EM") then "Konami"
    else UnknownPublisher
  }

  /** A game-code or publisher-code byte as the metadata shows it. */
  function Render(c: byte): (r: byte)
    ensures IsPrint(r)
    ensures IsPrint(c) ==> r == c
    ensures !IsPrint(c) ==> r == QuestionMark
  {
    if IsPrint(c) then c else QuestionMark
  }

  /** The title as `strncat(..., &workspace[32], 0x3E0)` copies it: up to its first NUL. */
  function TitleText(ws: seq<byte>): (title: seq<byte>)
    requires |ws| == HeaderSize
    ensures |title| <= TitleSize
    ensures NUL !in title
    ensures title == ws[TitleOffset..TitleOffset + |title|]
    ensures |title| < TitleSize ==> ws[TitleOffset + |title|] == NUL
  {
    var raw := ws[TitleOffset..TitleOffset + TitleSize];
    var n := StrLen(raw);
    assert forall k :: 0 <= k < n ==> raw[..n][k] != NUL;
    raw[..n]
  }

  /** Printable 7-bit text without a closing parenthesis. */
  predicate IsLabel(s: string)
  {
    forall i :: 0 <= i < |s| ==> ' ' <= s[i] <= '~' && s[i] != ')'
  }

  /** The names of the table are labels. */
  lemma TableNamesAreLabels1()
    ensures IsLabel("Nintendo") && IsLabel("Capcom") && IsLabel("Ubisoft") && IsLabel("Eidos") && IsLabel("Acclaim")
  {
  }

  /** The names of the table, continued are labels. */
  lemma TableNamesAreLabels2()
    ensures IsLabel("Activision") && IsLabel("Midway") && IsLabel("Hudson") && IsLabel("LucasArts")
  {
  }

  /** The names of the table, continued are labels. */
  lemma TableNamesAreLabels3()
    ensures IsLabel("Electronic Arts") && IsLabel("TDK Mediactive") && IsLabel("Sega")
  {
  }

  /** The names of the table, continued are labels. */
  lemma TableNamesAreLabels4()
    ensures IsLabel("Mirage Studios") && IsLabel("Namco") && IsLabel("Bandai") && IsLabel("Tomy") && IsLabel("Konami")
    ensures IsLabel(UnknownPublisher)
  {
  }

  /** Every publisher name is a label of at most 17 characters. */
  lemma PublisherNameIsLabel(c1: byte, c2: byte)
    ensures IsLabel(PublisherName(c1, c2)) && |PublisherName(c1, c2)| <= |UnknownPublisher|
  {
    TableNamesAreLabels1();
    TableNamesAreLabels2();
    TableNamesAreLabels3();
    TableNamesAreLabels4();
  }

  function PublisherLine(ws: seq<byte>): (line: seq<byte>)
    requires |ws| == HeaderSize
    ensures |line| <= |UnknownPublisher| && ')' as int !in line
  {
    PublisherNameIsLabel(ws[4], ws[5]);
    Ascii(PublisherName(ws[4], ws[5]))
  }

  const GameCodeLabel: seq<byte> := Ascii("Game code: ")
  const PublisherCodeLabel: seq<byte> := Ascii("Publisher code: ")
  const OpenParen: seq<byte> := Ascii(" (")
  const CloseParen: seq<byte> := Ascii(")")
  const TitleLabel: seq<byte> := Ascii("Title: ")

  /** The four game-code bytes (lines 295-297), each rendered printable. */
  function GameCode(ws: seq<byte>): (code: seq<byte>)
    requires |ws| == HeaderSize
    ensures |code| == 4
  {
    [Render(ws[0]), Render(ws[1]), Render(ws[2]), Render(ws[3])]
  }

  /** The two publisher-code bytes (lines 301-303), each rendered printable. */
  function PublisherCode(ws: seq<byte>): (code: seq<byte>)
    requires |ws| == HeaderSize
    ensures |code| == 2
  {
    [Render(ws[4]), Render(ws[5])]
  }

  /** The game-code line and the start of the publisher line, up to the publisher's name. */
  function CodeLines(ws: seq<byte>): (text: seq<byte>)
    requires |ws| == HeaderSize
    ensures |text| == 37
  {
    GameCodeLabel + GameCode(ws) + CRLF
    + PublisherCodeLabel + PublisherCode(ws) + OpenParen
  }

  /** The end of the publisher line and the title line. */
  function TitleLines(ws: seq<byte>): (text: seq<byte>)
    requires |ws| == HeaderSize
    ensures |text| == 12 + |TitleText(ws)|
  {
    CloseParen + CRLF + TitleLabel + TitleText(ws) + CRLF
  }

  /** The text that `gcfs_init` assembles in `metadata`, each piece in the order it is appended. */
  function MetadataText(ws: seq<byte>): (text: seq<byte>)
    requires |ws| == HeaderSize
    ensures |text| == 49 + |PublisherLine(ws)| + |TitleText(ws)|
    ensures |text| < MetadataFileMaxSize - 1
  {
    CodeLines(ws) + PublisherLine(ws) + TitleLines(ws)
  }

  /** The text has no NUL byte, so the `strlen` after its assembly measures all of it. */
  lemma MetadataTextHasNoNul(ws: seq<byte>)
    requires |ws| == HeaderSize
    ensures NUL !in MetadataText(ws)
  {
    PublisherNameIsLabel(ws[4], ws[5]);
    LabelHasNoNul(GameCodeLabel);
    LabelHasNoNul(GameCode(ws));
    LabelHasNoNul(CRLF);
    LabelHasNoNul(PublisherCodeLabel);
    LabelHasNoNul(PublisherCode(ws));
    LabelHasNoNul(OpenParen);
    LabelHasNoNul(PublisherLine(ws));
    LabelHasNoNul(CloseParen);
    LabelHasNoNul(TitleLabel);
  }

  lemma LabelHasNoNul(s: seq<byte>)
    requires forall k :: 0 <= k < |s| ==> s[k] != NUL
    ensures NUL !in s
  {
  }

  /** The fields that a reader of the metadata file finds in it. */
  datatype MetadataFields = MetadataFields(gameCode: seq<byte>, publisherCode: seq<byte>,
                                           publisher: seq<byte>, title: seq<byte>)


  /** The first index of `x` in `s`, or `|s|`. */
  function IndexOf(s: seq<byte>, x: byte): (k: nat)
    ensures k <= |s|
    ensures forall j :: 0 <= j < k ==> s[j] != x
    ensures k < |s| ==> s[k] == x
  {
    if s == [] || s[0] == x then 0 else 1 + IndexOf(s[1..], x)
  }

  /** Reads the fields back out of a metadata text: the labels are checked and the publisher name is
      everything up to the first `)` after its opening parenthesis. */
  function ParseMetadata(text: seq<byte>): Option<MetadataFields>
  {
    if |text| < 37 || text[..11] != GameCodeLabel || text[15..17] != CRLF
       || text[17..33] != PublisherCodeLabel || text[35..37] != OpenParen then None
    else
      var rest := text[37..];
      var k := IndexOf(rest, ')' as int);
      if k + 12 > |rest| || rest[k..k + 3] != CloseParen + CRLF || rest[k + 3..k + 10] != TitleLabel
         || rest[|rest| - 2..] != CRLF then None
      else Some(MetadataFields(text[11..15], text[33..35], rest[..k], rest[k + 10..|rest| - 2]))
  }

  lemma IndexOfFirst(a: seq<byte>, x: byte, b: seq<byte>)
    requires x !in a && b != [] && b[0] == x
    ensures IndexOf(a + b, x) == |a|
  {
    if a != [] {
      assert (a + b)[1..] == a[1..] + b;
      IndexOfFirst(a[1..], x, b);
    }
  }

  /** The labels of the first 37 bytes are where the parser looks for them. */
  lemma CodeLinesLabels(ws: seq<byte>, text: seq<byte>)
    requires |ws| == HeaderSize && |text| >= 37 && text[..37] == CodeLines(ws)
    ensures text[..11] == GameCodeLabel && text[15..17] == CRLF
    ensures text[17..33] == PublisherCodeLabel && text[35..37] == OpenParen
    ensures text[11..15] == GameCode(ws)
    ensures text[33..35] == PublisherCode(ws)
  {
    var head := CodeLines(ws);
    assert text[..11] == head[..11];
    assert text[11..15] == head[11..15];
    assert text[15..17] == head[15..17];
    assert text[17..33] == head[17..33];
    assert text[33..35] == head[33..35];
    assert text[35..37] == head[35..37];
  }

  /** What follows the publisher's name is where the parser looks for it. */
  lemma TitleLinesLabels(ws: seq<byte>, rest: seq<byte>, k: nat)
    requires |ws| == HeaderSize && k <= |rest| && rest[k..] == TitleLines(ws)
    ensures k + 12 <= |rest|
    ensures rest[k..k + 3] == CloseParen + CRLF && rest[k + 3..k + 10] == TitleLabel
    ensures rest[|rest| - 2..] == CRLF && rest[k + 10..|rest| - 2] == TitleText(ws)
  {
    var tail := TitleLines(ws);
    assert rest[k..k + 3] == tail[..3];
    assert rest[k + 3..k + 10] == tail[3..10];
    assert rest[k + 10..|rest| - 2] == tail[10..|tail| - 2];
    assert rest[|rest| - 2..] == tail[|tail| - 2..];
  }

  /** The metadata text is unambiguous: every field it was built from can be read back out of it. */
  lemma {:induction false} MetadataRoundTrip(ws: seq<byte>)
    requires |ws| == HeaderSize
    ensures ParseMetadata(MetadataText(ws)) ==
            Some(MetadataFields(GameCode(ws),
                                PublisherCode(ws), PublisherLine(ws), TitleText(ws)))
  {
    var head, name, tail := CodeLines(ws), PublisherLine(ws), TitleLines(ws);
    CodeLinesLabels(ws, head);
    TitleLinesLabels(ws, tail, 0);
    ParseOfParts(head, name, tail);
  }

  /** A text made of the 37 bytes up to the opening parenthesis, a name without `)`, and the rest
      from the closing parenthesis on, with every label in place, parses into the pieces. */
  lemma ParseOfParts(head: seq<byte>, name: seq<byte>, tail: seq<byte>)
    requires |head| == 37 && head[..11] == GameCodeLabel && head[15..17] == CRLF
    requires head[17..33] == PublisherCodeLabel && head[35..37] == OpenParen
    requires ')' as int !in name
    requires |tail| >= 12 && tail[..3] == CloseParen + CRLF && tail[3..10] == TitleLabel
    requires tail[|tail| - 2..] == CRLF
    ensures ParseMetadata(head + name + tail) ==
            Some(MetadataFields(head[11..15], head[33..35], name, tail[10..|tail| - 2]))
  {
    var text := head + name + tail;
    assert text[..37] == head;
    var rest := text[37..];
    assert rest == name + tail;
    assert tail[0] == ')' as int;
    IndexOfFirst(name, ')' as int, tail);
    var k := |name|;
    assert rest[k..] == tail && rest[..k] == name;
    assert rest[k..k + 3] == tail[..3] && rest[k + 3..k + 10] == tail[3..10];
    assert rest[|rest| - 2..] == tail[|tail| - 2..] && rest[k + 10..|rest| - 2] == tail[10..|tail| - 2];
    assert text[11..15] == head[11..15] && text[33..35] == head[33..35];
    assert text[..11] == head[..11] && text[15..17] == head[15..17];
    assert text[17..33] == head[17..33] && text[35..37] == head[35..37];
  }

  /** "01" is Nintendo's code, and a code the table lacks gets the fallback name. */
  lemma NintendoAndUnknownCodes()
    ensures PublisherName('0' as int, '1' as int) == "Nintendo"
    ensures PublisherName('Z' as int, 'Z' as int) == UnknownPublisher
  {
  }

  /** `strlen` of a string that continues another without a terminator. */
  lemma {:induction false} StrLenAppend(a: seq<byte>, b: seq<byte>)
    requires NUL !in a
    ensures StrLen(a + b) == |a| + StrLen(b)
  {
    if a == [] {
      assert a + b == b;
    } else {
      assert a[0] in a && (a + b)[0] == a[0];
      assert (a + b)[1..] == a[1..] + b;
      StrLenAppend(a[1..], b);
    }
  }

  /** `strcat(buf, piece)` for a piece without NUL bytes: the piece and a terminator go where the
      first terminator of `buf` was, and the bytes after them are left as they were. */
  function StrCat(buf: seq<byte>, piece: seq<byte>): (r: seq<byte>)
    requires StrLen(buf) + |piece| < |buf| && NUL !in piece
    ensures |r| == |buf| && StrLen(r) == StrLen(buf) + |piece|
    ensures r[..StrLen(r)] == buf[..StrLen(buf)] + piece
  {
    var n := StrLen(buf);
    var head, tail := buf[..n] + piece, [NUL] + buf[n + |piece| + 1..];
    LabelHasNoNul(buf[..n]);
    assert NUL !in head;
    StrLenAppend(head, tail);
    assert buf[..n] + piece + [NUL] + buf[n + |piece| + 1..] == head + tail;
    head + tail
  }

  /** The character loop `metadata[metadata_size++] = ...`: the bytes are written from `at` on and no
      terminator is written after them. */
  function PutBytes(buf: seq<byte>, at: nat, piece: seq<byte>): (r: seq<byte>)
    requires at + |piece| <= |buf|
    ensures |r| == |buf| && r[..at + |piece|] == buf[..at] + piece
    ensures r[at + |piece|..] == buf[at + |piece|..]
  {
    buf[..at] + piece + buf[at + |piece|..]
  }

  /** Lines 292-297 of `gcfs_init` as written, from the bytes `leftover` that `malloc` left in the
      metadata buffer: the label is appended with `strcat`, then the four code bytes are written after
      it without a terminator. */
  function CodeBytesAsWritten(ws: seq<byte>, leftover: seq<byte>): (b: seq<byte>)
    requires |ws| == HeaderSize && |leftover| == MetadataFileMaxSize
    ensures |b| == MetadataFileMaxSize
  {
    var b0 := leftover[0 := NUL];
    StrLenAt(b0, 0);
    var b1 := StrCat(b0, GameCodeLabel);
    PutBytes(b1, StrLen(b1), GameCode(ws))
  }

  /** Line 298 on top: the CRLF goes after the first NUL that follows the codes. Nothing when no such
      NUL leaves room for the CRLF (the C then writes past the buffer). */
  function GameCodeLineAsWritten(ws: seq<byte>, leftover: seq<byte>): (r: Option<seq<byte>>)
    requires |ws| == HeaderSize && |leftover| == MetadataFileMaxSize
  {
    var b := CodeBytesAsWritten(ws, leftover);
    if StrLen(b) + |CRLF| < |b| then Some(StrCat(b, CRLF)) else None
  }

  /** After the code loop the buffer holds the label, the codes, and the leftover bytes from 15 on. */
  lemma CodeBytesKeepLeftover(ws: seq<byte>, leftover: seq<byte>)
    requires |ws| == HeaderSize && |leftover| == MetadataFileMaxSize
    ensures CodeBytesAsWritten(ws, leftover) == GameCodeLabel + GameCode(ws) + leftover[15..]
  {
    var b0 := leftover[0 := NUL];
    StrLenAt(b0, 0);
    var b1 := StrCat(b0, GameCodeLabel);
    assert b1 == GameCodeLabel + [NUL] + leftover[12..];
  }

  /** As written, the game-code line holds, between the codes and the CRLF, every leftover byte from
      index 15 up to the first NUL: the string seen by the next `strcat` is the label, the codes,
      those bytes and the CRLF. */
  lemma GameCodeLineKeepsLeftover(ws: seq<byte>, leftover: seq<byte>)
    requires |ws| == HeaderSize && |leftover| == MetadataFileMaxSize
    requires 15 + StrLen(leftover[15..]) + |CRLF| < MetadataFileMaxSize
    ensures GameCodeLineAsWritten(ws, leftover).Some?
    ensures var b := GameCodeLineAsWritten(ws, leftover).value;
            b[..StrLen(b)] == GameCodeLabel + GameCode(ws) + leftover[15..15 + StrLen(leftover[15..])] + CRLF
  {
    var b2 := CodeBytesAsWritten(ws, leftover);
    CodeBytesKeepLeftover(ws, leftover);
    var head := GameCodeLabel + GameCode(ws);
    LabelHasNoNul(head);
    StrLenAppend(head, leftover[15..]);
    var q := 15 + StrLen(leftover[15..]);
    assert b2[..q] == head + leftover[15..q];
  }

  /** So the line comes out as intended, the label, the codes and the CRLF, exactly when the byte
      after the codes happens to be NUL. */
  lemma GameCodeLineAsIntended(ws: seq<byte>, leftover: seq<byte>)
    requires |ws| == HeaderSize && |leftover| == MetadataFileMaxSize
    requires 15 + StrLen(leftover[15..]) + |CRLF| < MetadataFileMaxSize
    ensures GameCodeLineAsWritten(ws, leftover).Some?
    ensures var b := GameCodeLineAsWritten(ws, leftover).value;
            b[..StrLen(b)] == GameCodeLabel + GameCode(ws) + CRLF <==> leftover[15] == NUL
  {
    GameCodeLineKeepsLeftover(ws, leftover);
    var b := GameCodeLineAsWritten(ws, leftover).value;
    var n := StrLen(leftover[15..]);
    if b[..StrLen(b)] == GameCodeLabel + GameCode(ws) + CRLF {
      assert |b[..StrLen(b)]| == 17 + n;
    }
  }

  /** A buffer whose byte 15 is `x` and byte 16 NUL puts an `x` into the game-code line. */
  lemma GameCodeLineWithLeftoverX(ws: seq<byte>)
    requires |ws| == HeaderSize
    ensures var leftover := seq(MetadataFileMaxSize, k => if k == 16 then NUL else 'x' as int);
            GameCodeLineAsWritten(ws, leftover).Some? &&
            var b := GameCodeLineAsWritten(ws, leftover).value;
            b[..StrLen(b)] == GameCodeLabel + GameCode(ws) + ['x' as int] + CRLF
  {
    var leftover := seq(MetadataFileMaxSize, k => if k == 16 then NUL else 'x' as int);
    StrLenAt(leftover[15..], 1);
    GameCodeLineKeepsLeftover(ws, leftover);
    assert leftover[15..16] == ['x' as int];
  }


  /** The metadata branch of `gcfs_read` as written: the byte count is clamped to what lies past
      `offset`, but the bytes are copied from the start of the metadata whatever the offset. */
  function ReadAsWritten(m: seq<byte>, offset: nat, count: nat): (data: seq<byte>)
    ensures offset >= |m| ==> data == []
    ensures offset < |m| ==> |data| == Min(count, |m| - offset)
    ensures data == m[..|data|]
  {
    if offset >= |m| then []
    else if offset + count >= |m| then m[..|m| - offset]
    else m[..count]
  }

  /** The same clamp with the copy taken from `offset`, as a file read means. */
  function MetadataRead(m: seq<byte>, offset: nat, count: nat): (data: seq<byte>)
    ensures offset >= |m| ==> data == []
    ensures offset < |m| ==> |data| == Min(count, |m| - offset)
    ensures data == m[Min(offset, |m|)..Min(offset, |m|) + |data|]
  {
    if offset >= |m| then []
    else if offset + count >= |m| then m[offset..]
    else m[offset..offset + count]
  }

  /** With the corrected copy, two reads that follow each other return what one read of both lengths
      returns, so reading a file piece by piece reassembles it. */
  lemma ReadsReassemble(m: seq<byte>, offset: nat, a: nat, b: nat)
    ensures MetadataRead(m, offset, a) + MetadataRead(m, offset + a, b) == MetadataRead(m, offset, a + b)
  {
  }

  /** As written, a read at offset 1 returns the first byte of the file instead of the second, for
      every disc header. */
  lemma ReadAsWrittenIgnoresOffset(ws: seq<byte>)
    requires |ws| == HeaderSize
    ensures ReadAsWritten(MetadataText(ws), 1, 1) == ['G' as int]
    ensures MetadataRead(MetadataText(ws), 1, 1) == ['a' as int]
  {
    var text := MetadataText(ws);
    assert text[..11] == GameCodeLabel;
  }
}
