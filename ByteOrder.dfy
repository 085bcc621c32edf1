/** Byte-order decoders of src/gcfs.h: a multi-byte integer read at an offset of a byte buffer.
    The macros combine the bytes with shifts and `|`; the shifted bytes occupy disjoint bit lanes,
    so the combination equals the weighted sum written here. */
module ByteOrder {

  /** An unsigned 8-bit value (`uint8_t`). */
  type byte = x: int | 0 <= x < 256

  const Two16: nat := 0x1_0000
  const Two32: nat := 0x1_0000_0000

  /** `BE_16(&s[at])` */
  function BE16(s: seq<byte>, at: nat): (r: nat)
    requires at + 2 <= |s|
    ensures r < Two16
  {
    s[at] as int * 0x100 + s[at + 1]
  }

  /** `BE_32(&s[at])` */
  function BE32(s: seq<byte>, at: nat): (r: nat)
    requires at + 4 <= |s|
    ensures r < Two32
  {
    s[at] as int * 0x100_0000 + s[at + 1] as int * 0x1_0000 + s[at + 2] as int * 0x100 + s[at + 3]
  }

  /** `LE_16(&s[at])` */
  function LE16(s: seq<byte>, at: nat): (r: nat)
    requires at + 2 <= |s|
    ensures r < Two16
  {
    s[at + 1] as int * 0x100 + s[at]
  }

  /** `LE_32(&s[at])` */
  function LE32(s: seq<byte>, at: nat): (r: nat)
    requires at + 4 <= |s|
    ensures r < Two32
  {
    s[at + 3] as int * 0x100_0000 + s[at + 2] as int * 0x1_0000 + s[at + 1] as int * 0x100 + s[at]
  }

  /** The four bytes that `BE32` reads back as `v`: the big-endian encoding of a 32-bit value. */
  function BE32Bytes(v: nat): (b: seq<byte>)
    requires v < Two32
    ensures |b| == 4
  {
    [v / 0x100_0000, (v / 0x1_0000) % 0x100, (v / 0x100) % 0x100, v % 0x100]
  }

  /** A little-endian read is a big-endian read of the reversed bytes. */
  lemma LE16IsReversedBE16(s: seq<byte>, at: nat)
    requires at + 2 <= |s|
    ensures LE16(s, at) == BE16([s[at + 1], s[at]], 0)
  {
  }

  lemma LE32IsReversedBE32(s: seq<byte>, at: nat)
    requires at + 4 <= |s|
    ensures LE32(s, at) == BE32([s[at + 3], s[at + 2], s[at + 1], s[at]], 0)
  {
  }

  /** A 32-bit big-endian value is its high 16-bit half followed by its low half. */
  lemma BE32Split(s: seq<byte>, at: nat)
    requires at + 4 <= |s|
    ensures BE32(s, at) == BE16(s, at) * Two16 + BE16(s, at + 2)
  {
  }

  /** Decoding the encoding of a 32-bit value gives the value back. */
  lemma BE32OfBytes(v: nat)
    requires v < Two32
    ensures BE32(BE32Bytes(v), 0) == v
  {
    var b := BE32Bytes(v);
    var q1, q2 := v / 0x100, v / 0x1_0000;
    assert q2 == q1 / 0x100;
    assert b[0] == q2 / 0x100;
    assert q2 == b[0] as int * 0x100 + b[1];
    assert q1 == q2 * 0x100 + b[2];
    assert v == q1 * 0x100 + b[3];
  }

  /** Decoding inside a slice is decoding at the shifted offset. */
  lemma BE32OfSlice(s: seq<byte>, lo: nat, hi: nat, at: nat)
    requires lo <= hi <= |s| && at + 4 <= hi - lo
    ensures BE32(s[lo..hi], at) == BE32(s, lo + at)
  {
  }

  /** Encoding the value decoded from four bytes gives the same four bytes back, so `BE32` is injective. */
  lemma BytesOfBE32(s: seq<byte>, at: nat)
    requires at + 4 <= |s|
    ensures BE32Bytes(BE32(s, at)) == s[at..at + 4]
  {
    var v := BE32(s, at);
    var q1: int := s[at] as int * 0x1_0000 + s[at + 1] as int * 0x100 + s[at + 2];
    var q2: int := s[at] as int * 0x100 + s[at + 1];
    assert v == q1 * 0x100 + s[at + 3];
    assert v / 0x100 == q1 && v % 0x100 == s[at + 3];
    assert q1 == q2 * 0x100 + s[at + 2];
    assert q1 / 0x100 == q2 && q1 % 0x100 == s[at + 2];
    assert v / 0x1_0000 == q2;
    assert q2 / 0x100 == s[at] && q2 % 0x100 == s[at + 1];
    assert v / 0x100_0000 == s[at];
  }
}
