/** Bytes and the ASCII character classes that the tool's patterns use.

    A Go `string` is a sequence of bytes and `len` counts bytes, so every string the
    tool inspects is modelled as a `seq<byte>`. All character classes in the patterns
    are ASCII, so a byte at or above 0x80 (part of a multi-byte UTF-8 rune, or an
    invalid byte) belongs to none of them.
 */
module Ascii {

  newtype byte = x: int | 0 <= x < 256

  const HYPHEN: byte := 0x2D
  const DOT: byte := 0x2E

  /** `[0-9]` */
  predicate IsDigit(c: byte) {
    0x30 <= c <= 0x39
  }

  /** `[A-Z]` */
  predicate IsUpper(c: byte) {
    0x41 <= c <= 0x5A
  }

  /** `[a-z]` */
  predicate IsLower(c: byte) {
    0x61 <= c <= 0x7A
  }

  /** `[a-zA-Z0-9]` */
  predicate IsAlnum(c: byte) {
    IsDigit(c) || IsUpper(c) || IsLower(c)
  }

  /** `[0-9A-Fa-f]` */
  predicate IsHexDigit(c: byte) {
    IsDigit(c) || 0x41 <= c <= 0x46 || 0x61 <= c <= 0x66
  }

  /** ASCII lower-casing of one byte; every other byte is left alone. */
  function ToLower(c: byte): (r: byte)
    ensures IsUpper(c) ==> IsLower(r) && r as int == c as int + 32
    ensures !IsUpper(c) ==> r == c
  {
    if IsUpper(c) then c + 32 else c
  }

  /** ASCII lower-casing of a whole byte string. */
  function LowerAll(s: seq<byte>): (r: seq<byte>)
    ensures |r| == |s|
    ensures forall i :: 0 <= i < |r| ==> r[i] == ToLower(s[i])
  {
    seq(|s|, i requires 0 <= i < |s| => ToLower(s[i]))
  }
}
