/** The part of Go's `encoding/hex` that the packet builder relies on: decoding a
    string of hex digit pairs into bytes (`hex.DecodeString` on well-formed input),
    together with the lower-case encoder as its inverse.
 */
module Hex {
  import opened Ascii

  /** A string made only of hex digits, of either case. */
  predicate IsHexString(s: seq<byte>) {
    forall i :: 0 <= i < |s| ==> IsHexDigit(s[i])
  }

  /** The value of one hex digit; `a`-`f` and `A`-`F` both stand for 10 to 15. */
  function DigitValue(c: byte): (v: nat)
    requires IsHexDigit(c)
    ensures v < 16
    ensures IsDigit(c) ==> v == c as int - 0x30
    ensures !IsDigit(c) ==> v == ToLower(c) as int - 0x61 + 10
  {
    if IsDigit(c) then (c - 0x30) as nat
    else if 0x61 <= c then (c - 0x61 + 10) as nat
    else (c - 0x41 + 10) as nat
  }

  /** The lower-case hex digit for a value below 16. */
  function DigitFor(v: nat): (c: byte)
    requires v < 16
    ensures IsHexDigit(c) && !IsUpper(c)
    ensures DigitValue(c) == v
  {
    if v < 10 then (0x30 + v) as byte else (0x61 + v - 10) as byte
  }

  /** Decodes consecutive digit pairs: each byte is high digit * 16 + low digit
      (Go writes it as `a<<4 | b`, the same number since `b < 16`). */
  function Decode(s: seq<byte>): (r: seq<byte>)
    requires IsHexString(s) && |s| % 2 == 0
    ensures |r| == |s| / 2
  {
    if |s| == 0 then []
    else [(16 * DigitValue(s[0]) + DigitValue(s[1])) as byte] + Decode(s[2..])
  }

  /** Byte `j` of the decoding comes from digits `2j` (high) and `2j + 1` (low). */
  lemma {:induction false} DecodeAt(s: seq<byte>, j: nat)
    requires IsHexString(s) && |s| % 2 == 0 && j < |s| / 2
    ensures Decode(s)[j] as int == 16 * DigitValue(s[2 * j]) + DigitValue(s[2 * j + 1])
  {
    if j > 0 {
      DecodeAt(s[2..], j - 1);
      assert s[2..][2 * (j - 1)] == s[2 * j] && s[2..][2 * (j - 1) + 1] == s[2 * j + 1];
    }
  }

  /** Lower-case hex encoding, two digits per byte, high digit first. */
  function Encode(bs: seq<byte>): (s: seq<byte>)
    ensures |s| == 2 * |bs|
    ensures IsHexString(s)
    ensures forall i :: 0 <= i < |s| ==> !IsUpper(s[i])
  {
    if |bs| == 0 then []
    else [DigitFor(bs[0] as nat / 16), DigitFor(bs[0] as nat % 16)] + Encode(bs[1..])
  }

  /** Decoding undoes encoding. */
  lemma {:induction false} DecodeEncode(bs: seq<byte>)
    ensures Decode(Encode(bs)) == bs
  {
    if |bs| > 0 {
      var s := Encode(bs);
      assert s[2..] == Encode(bs[1..]);
      DecodeEncode(bs[1..]);
      assert Decode(s) == [bs[0]] + Decode(Encode(bs[1..]));
    }
  }

  /** Re-encoding decoded digits gives the input back up to letter case:
      decoding forgets exactly the case of the letters `A`-`F`. */
  lemma {:induction false} EncodeDecode(s: seq<byte>)
    requires IsHexString(s) && |s| % 2 == 0
    ensures Encode(Decode(s)) == LowerAll(s)
  {
    if |s| > 0 {
      var hi, lo := DigitValue(s[0]), DigitValue(s[1]);
      var b := (16 * hi + lo) as byte;
      assert b as nat / 16 == hi && b as nat % 16 == lo;
      DigitForLower(s[0]);
      DigitForLower(s[1]);
      EncodeDecode(s[2..]);
      assert Decode(s) == [b] + Decode(s[2..]);
      assert Decode(s)[1..] == Decode(s[2..]);
      assert LowerAll(s) == [ToLower(s[0]), ToLower(s[1])] + LowerAll(s[2..]);
    }
  }

  /** The lower-case digit for a digit's value is that digit lower-cased. */
  lemma DigitForLower(c: byte)
    requires IsHexDigit(c)
    ensures DigitFor(DigitValue(c)) == ToLower(c)
  {
  }

  /** Decoding is case-insensitive. */
  lemma DecodeIgnoresCase(s: seq<byte>)
    requires IsHexString(s) && |s| % 2 == 0
    ensures IsHexString(LowerAll(s))
    ensures Decode(LowerAll(s)) == Decode(s)
  {
    EncodeDecode(s);
    DecodeEncode(Decode(s));
  }
}
