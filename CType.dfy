/** The C-locale character classes of <ctype.h> that the decoder uses, on bytes, and the two
    <string.h> notions it relies on: C string literals as bytes and `strlen`. */
module CType {
  import opened ByteOrder

  const NUL: byte := 0
  const Space: byte := 0x20
  const Dash: byte := 0x2D
  const Slash: byte := 0x2F
  const QuestionMark: byte := 0x3F

  /** `isprint`: space through tilde. */
  predicate IsPrint(c: byte) { 0x20 <= c <= 0x7E }

  /** Every byte is printable, so none is a terminator. */
  predicate Printable(s: seq<byte>)
  {
    forall k :: 0 <= k < |s| ==> IsPrint(s[k])
  }

  predicate IsDigit(c: byte) { 0x30 <= c <= 0x39 }

  /** `isupper` */
  predicate IsUpper(c: byte) { 0x41 <= c <= 0x5A }

  /** `islower` */
  predicate IsLower(c: byte) { 0x61 <= c <= 0x7A }

  /** `isalnum` */
  predicate IsAlnum(c: byte) { IsDigit(c) || IsUpper(c) || IsLower(c) }

  /** `tolower`: upper-case letters map to lower case, every other byte is unchanged. */
  function ToLower(c: byte): (r: byte)
    ensures IsUpper(c) ==> IsLower(r) && r == c + 0x20
    ensures !IsUpper(c) ==> r == c
  {
    if IsUpper(c) then c + 0x20 else c
  }

  /** Lower-casing is idempotent, leaves no upper-case letter, and keeps the alphanumeric class. */
  lemma ToLowerIdempotent(c: byte)
    ensures ToLower(ToLower(c)) == ToLower(c) && !IsUpper(ToLower(c))
    ensures IsAlnum(ToLower(c)) <==> IsAlnum(c)
  {
  }

  /** Two bytes lower-case to the same byte exactly when they are equal or one is the upper-case
      form of the other. */
  lemma ToLowerEqual(c: byte, d: byte)
    ensures ToLower(c) == ToLower(d) <==> c == d || (IsUpper(c) && d == c + 0x20) || (IsUpper(d) && c == d + 0x20)
  {
  }

  /** The bytes of a 7-bit string literal. */
  function Ascii(s: string): (b: seq<byte>)
    requires forall i :: 0 <= i < |s| ==> s[i] as int < 0x80
    ensures |b| == |s| && forall i :: 0 <= i < |s| ==> b[i] == s[i] as int
  {
    seq(|s|, i requires 0 <= i < |s| => s[i] as int)
  }

  /** `strlen`: the index of the first NUL byte, or the whole length when there is none. */
  function StrLen(s: seq<byte>): (n: nat)
    ensures n <= |s|
    ensures forall k :: 0 <= k < n ==> s[k] != NUL
    ensures n < |s| ==> s[n] == NUL
  {
    if s == [] || s[0] == NUL then 0 else 1 + StrLen(s[1..])
  }

  /** `strlen` finds the terminator a string was written with when no byte before it is NUL. */
  lemma StrLenAt(s: seq<byte>, n: nat)
    requires n < |s| && s[n] == NUL
    requires forall k :: 0 <= k < n ==> s[k] != NUL
    ensures StrLen(s) == n
  {
  }
}
