/** The destination validator: `validateDestination` and the three pattern checks
    it calls. Each pattern is written out as a predicate on bytes; each predicate is
    then tied to an independent description of the strings it accepts.
 */
module Validate {
  import opened Ascii
  import Hex
  import opened WolErrors

  // ---------------------------------------------------------------------------
  // Port: the pattern ^([0-9]{4})$

  /** `isPortValid`: exactly four ASCII decimal digits. */
  predicate IsPortValid(port: seq<byte>) {
    |port| == 4 && forall i :: 0 <= i < |port| ==> IsDigit(port[i])
  }

  function Pow10(width: nat): (p: nat)
    ensures p >= 1
  {
    if width == 0 then 1 else 10 * Pow10(width - 1)
  }

  /** The number a string of decimal digits denotes, most significant digit first. */
  function DecimalValue(s: seq<byte>): (n: nat)
    requires forall i :: 0 <= i < |s| ==> IsDigit(s[i])
    ensures n < Pow10(|s|)
  {
    if |s| == 0 then 0
    else
      assert IsDigit(s[|s| - 1]);
      10 * DecimalValue(s[..|s| - 1]) + (s[|s| - 1] as int - 0x30)
  }

  /** `n` written in decimal with exactly `width` digits, padded with leading zeros. */
  function PaddedDecimal(n: nat, width: nat): (s: seq<byte>)
    ensures |s| == width
    ensures forall i :: 0 <= i < |s| ==> IsDigit(s[i])
  {
    if width == 0 then []
    else PaddedDecimal(n / 10, width - 1) + [(0x30 + n % 10) as byte]
  }

  /** A digit string is the padded rendering of its own value. */
  lemma {:induction false} PaddedDecimalOfValue(s: seq<byte>)
    requires forall i :: 0 <= i < |s| ==> IsDigit(s[i])
    ensures PaddedDecimal(DecimalValue(s), |s|) == s
  {
    if |s| > 0 {
      var init, last := s[..|s| - 1], s[|s| - 1];
      var d := last as int - 0x30;
      var n := DecimalValue(s);
      assert n == 10 * DecimalValue(init) + d;
      assert n / 10 == DecimalValue(init) && n % 10 == d;
      PaddedDecimalOfValue(init);
      assert s == init + [last];
    }
  }

  /** Rendering a number that fits in `width` digits and reading it back gives the number. */
  lemma {:induction false} ValueOfPaddedDecimal(n: nat, width: nat)
    requires n < Pow10(width)
    ensures DecimalValue(PaddedDecimal(n, width)) == n
  {
    if width > 0 {
      var s := PaddedDecimal(n, width);
      assert s[..|s| - 1] == PaddedDecimal(n / 10, width - 1);
      ValueOfPaddedDecimal(n / 10, width - 1);
    }
  }

  /** The accepted ports are exactly the four-digit zero-padded renderings of
      0 to 9999: "0009" is accepted, while "9", "999" and "10000" are not. */
  lemma PortValidIffFourDigitNumber(port: seq<byte>)
    ensures IsPortValid(port) <==> exists n: nat :: n < 10000 && PaddedDecimal(n, 4) == port
  {
    assert Pow10(4) == 10000;
    if IsPortValid(port) {
      PaddedDecimalOfValue(port);
      var n := DecimalValue(port);
      assert n < 10000 && PaddedDecimal(n, 4) == port;
    }
  }

  // ---------------------------------------------------------------------------
  // MAC address: the pattern ^([0-9A-Fa-f]{12})$

  /** `isMacAddrValid`: exactly twelve hex digits of either case, no separators. */
  predicate IsMacAddrValid(mac: seq<byte>) {
    |mac| == 12 && Hex.IsHexString(mac)
  }

  /** The accepted MAC strings are exactly the hex encodings of six bytes, in any
      mix of letter cases; the six bytes are the decoded MAC. */
  lemma MacValidIffEncodesSixBytes(mac: seq<byte>)
    ensures IsMacAddrValid(mac) <==> exists b6: seq<byte> :: |b6| == 6 && Hex.Encode(b6) == LowerAll(mac)
    ensures IsMacAddrValid(mac) ==> Hex.Encode(Hex.Decode(mac)) == LowerAll(mac)
  {
    if IsMacAddrValid(mac) {
      Hex.EncodeDecode(mac);
    }
    if b6: seq<byte> :| |b6| == 6 && Hex.Encode(b6) == LowerAll(mac) {
      var e := Hex.Encode(b6);
      forall i | 0 <= i < |mac|
        ensures IsHexDigit(mac[i])
      {
        assert IsHexDigit(e[i]) && e[i] == ToLower(mac[i]);
      }
    }
  }

  // ---------------------------------------------------------------------------
  // Host name: the pattern
  //   ^(([a-zA-Z0-9]|[a-zA-Z0-9][a-zA-Z0-9\-]*[a-zA-Z0-9])\.)*([A-Za-z0-9]|[A-Za-z0-9][A-Za-z0-9\-]*[A-Za-z0-9])$

  /** One label, as the pattern's alternation: a single letter or digit, or a letter
      or digit, then letters, digits and hyphens, then a letter or digit. */
  predicate IsLabel(s: seq<byte>) {
    (|s| == 1 && IsAlnum(s[0]))
    || (|s| >= 2 && IsAlnum(s[0]) && IsAlnum(s[|s| - 1])
        && forall i :: 1 <= i < |s| - 1 ==> IsAlnum(s[i]) || s[i] == HYPHEN)
  }

  /** The pieces of `s` between dots, in order; `n` dots give `n + 1` pieces. */
  function Split(s: seq<byte>): (parts: seq<seq<byte>>)
    ensures |parts| >= 1
  {
    if |s| == 0 then [[]]
    else if s[0] == DOT then [[]] + Split(s[1..])
    else
      var rest := Split(s[1..]);
      [[s[0]] + rest[0]] + rest[1..]
  }

  /** No piece of a split holds a dot. */
  lemma {:induction false} SplitPiecesHaveNoDot(s: seq<byte>, i: nat)
    requires i < |Split(s)|
    ensures DOT !in Split(s)[i]
  {
    if |s| > 0 {
      var rest := Split(s[1..]);
      if s[0] == DOT {
        if i > 0 {
          SplitPiecesHaveNoDot(s[1..], i - 1);
        }
      } else if i == 0 {
        SplitPiecesHaveNoDot(s[1..], 0);
      } else {
        SplitPiecesHaveNoDot(s[1..], i);
      }
    }
  }

  /** The pieces joined with one dot between neighbours. */
  function JoinDots(parts: seq<seq<byte>>): (s: seq<byte>)
    requires |parts| >= 1
  {
    if |parts| == 1 then parts[0] else parts[0] + [DOT] + JoinDots(parts[1..])
  }

  lemma {:induction false} SplitWithoutDot(w: seq<byte>)
    requires DOT !in w
    ensures Split(w) == [w]
  {
    if |w| > 0 {
      SplitWithoutDot(w[1..]);
      assert [w[0]] + w[1..] == w;
    }
  }

  lemma {:induction false} SplitAtFirstDot(w: seq<byte>, rest: seq<byte>)
    requires DOT !in w
    ensures Split(w + [DOT] + rest) == [w] + Split(rest)
  {
    var s := w + [DOT] + rest;
    if |w| == 0 {
      assert s[1..] == rest;
    } else {
      assert s[1..] == w[1..] + [DOT] + rest;
      SplitAtFirstDot(w[1..], rest);
      assert [w[0]] + w[1..] == w;
    }
  }

  /** Splitting undoes joining pieces that hold no dot. */
  lemma {:induction false} SplitJoinDots(parts: seq<seq<byte>>)
    requires |parts| >= 1
    requires forall i :: 0 <= i < |parts| ==> DOT !in parts[i]
    ensures Split(JoinDots(parts)) == parts
  {
    if |parts| == 1 {
      SplitWithoutDot(parts[0]);
    } else {
      SplitJoinDots(parts[1..]);
      SplitAtFirstDot(parts[0], JoinDots(parts[1..]));
    }
  }

  /** Joining undoes splitting. */
  lemma {:induction false} JoinDotsSplit(s: seq<byte>)
    ensures JoinDots(Split(s)) == s
  {
    if |s| > 0 {
      JoinDotsSplit(s[1..]);
      var rest := Split(s[1..]);
      if s[0] != DOT {
        var parts := [[s[0]] + rest[0]] + rest[1..];
        assert parts[1..] == rest[1..];
        if |rest| > 1 {
          assert JoinDots(rest) == rest[0] + [DOT] + JoinDots(rest[1..]);
        }
      } else {
        assert ([[]] + rest)[1..] == rest;
      }
    }
  }

  /** What the host-name pattern matches, decided piece by piece. */
  predicate MatchesHostPattern(host: seq<byte>) {
    var parts := Split(host);
    forall i :: 0 <= i < |parts| ==> IsLabel(parts[i])
  }

  /** The host-name grammar: one or more labels joined by dots. */
  ghost predicate IsHostName(host: seq<byte>) {
    exists labels: seq<seq<byte>> ::
      |labels| >= 1 && (forall i :: 0 <= i < |labels| ==> IsLabel(labels[i])) && JoinDots(labels) == host
  }

  lemma LabelHasNoDot(s: seq<byte>)
    requires IsLabel(s)
    ensures DOT !in s
  {
  }

  /** Deciding the pattern piece by piece agrees with the grammar. */
  lemma HostPatternIffGrammar(host: seq<byte>)
    ensures MatchesHostPattern(host) <==> IsHostName(host)
  {
    if MatchesHostPattern(host) {
      JoinDotsSplit(host);
      var labels := Split(host);
      assert |labels| >= 1 && (forall i :: 0 <= i < |labels| ==> IsLabel(labels[i])) && JoinDots(labels) == host;
    }
    if IsHostName(host) {
      var labels :| |labels| >= 1 && (forall i :: 0 <= i < |labels| ==> IsLabel(labels[i])) && JoinDots(labels) == host;
      forall i | 0 <= i < |labels|
        ensures DOT !in labels[i]
      {
        LabelHasNoDot(labels[i]);
      }
      SplitJoinDots(labels);
    }
  }

  /** `isHostNameValid`: the host-name pattern, and on a mismatch the second
      ("IP") pattern, which is the same pattern string, so the retry changes nothing. */
  function IsHostNameValid(host: seq<byte>): (matched: bool)
    ensures matched <==> IsHostName(host)
  {
    HostPatternIffGrammar(host);
    var matched := MatchesHostPattern(host);
    if !matched then MatchesHostPattern(host) else matched
  }

  // ---------------------------------------------------------------------------
  // validateDestination

  /** `validateDestination`: host name, then port, then MAC length, then MAC format;
      the first check that fails decides the error. */
  function ValidateDestination(host: seq<byte>, port: seq<byte>, mac: seq<byte>): (r: Outcome)
    ensures r == Pass <==> IsHostName(host) && IsPortValid(port) && IsMacAddrValid(mac)
    ensures r.Fail? ==> IsKnownKind(r.error.kind) && Message(r.error) != UnknownMessage
  {
    if !IsHostNameValid(host) then Fail(HostNameFormatWrongErr)
    else if !IsPortValid(port) then Fail(PortFormatWrongErr)
    else if |mac| < 12 then Fail(MacAddrLengthWrongErr)
    else if !IsMacAddrValid(mac) then Fail(MacAddrFormatWrongErr)
    else Pass
  }

  /** Each error is reported exactly when its check is the first that fails. */
  lemma ValidateReportsFirstFailure(host: seq<byte>, port: seq<byte>, mac: seq<byte>)
    ensures var r := ValidateDestination(host, port, mac);
      && (r == Fail(HostNameFormatWrongErr) <==> !IsHostName(host))
      && (r == Fail(PortFormatWrongErr) <==> IsHostName(host) && !IsPortValid(port))
      && (r == Fail(MacAddrLengthWrongErr) <==> IsHostName(host) && IsPortValid(port) && |mac| < 12)
      && (r == Fail(MacAddrFormatWrongErr) <==>
            IsHostName(host) && IsPortValid(port) && |mac| >= 12 && !IsMacAddrValid(mac))
  {
  }

  /** Once host and port pass, a MAC shorter than twelve bytes is a length error
      whatever it holds, and any longer one that fails is a format error. */
  lemma MacErrorSelection(host: seq<byte>, port: seq<byte>, mac: seq<byte>)
    requires IsHostName(host) && IsPortValid(port)
    ensures |mac| < 12 ==> ValidateDestination(host, port, mac) == Fail(MacAddrLengthWrongErr)
    ensures |mac| > 12 ==> ValidateDestination(host, port, mac) == Fail(MacAddrFormatWrongErr)
    ensures |mac| == 12 ==>
      ValidateDestination(host, port, mac) == if Hex.IsHexString(mac) then Pass else Fail(MacAddrFormatWrongErr)
  {
  }

  /** Validation passes exactly for a host name, a four-digit port number and the
      hex encoding of six bytes (in any letter case). */
  lemma ValidateAcceptsExactly(host: seq<byte>, port: seq<byte>, mac: seq<byte>)
    ensures ValidateDestination(host, port, mac) == Pass <==>
      && IsHostName(host)
      && (exists n: nat :: n < 10000 && PaddedDecimal(n, 4) == port)
      && (exists b6: seq<byte> :: |b6| == 6 && Hex.Encode(b6) == LowerAll(mac))
  {
    PortValidIffFourDigitNumber(port);
    MacValidIffEncodesSixBytes(mac);
  }

  // ---------------------------------------------------------------------------
  // Concrete cases

  lemma EmptyHostNameRejected()
    ensures !IsHostName([])
  {
  }

  // The strings of the validator's test table, as ASCII bytes.
  const Atul: seq<byte> := [0x61, 0x74, 0x75, 0x6C]       // "atul"
  const Port9999: seq<byte> := [0x39, 0x39, 0x39, 0x39]   // "9999"
  const Port999: seq<byte> := [0x39, 0x39, 0x39]          // "999"
  const Port999a: seq<byte> := [0x39, 0x39, 0x39, 0x61]   // "999a"
  const Mac00: seq<byte> := [0x30, 0x30]                  // "00"
  // "00000000ZZZZ"
  const Mac0ZZZZ: seq<byte> := [0x30, 0x30, 0x30, 0x30, 0x30, 0x30, 0x30, 0x30, 0x5A, 0x5A, 0x5A, 0x5A]
  // "00000000ffff"
  const Mac0ffff: seq<byte> := [0x30, 0x30, 0x30, 0x30, 0x30, 0x30, 0x30, 0x30, 0x66, 0x66, 0x66, 0x66]

  /** "atul" is a host name: a single label of letters. */
  lemma AtulIsHostName()
    ensures IsHostName(Atul)
  {
    SplitWithoutDot(Atul);
    assert IsLabel(Atul);
    assert MatchesHostPattern(Atul);
    HostPatternIffGrammar(Atul);
  }

  /** The cases of the validator's test table, and one passing case, which the table lacks. */
  lemma ShortMacCase()
    ensures ValidateDestination(Atul, Port9999, Mac00) == Fail(MacAddrLengthWrongErr)
  {
    AtulIsHostName();
    assert IsPortValid(Port9999);
  }

  lemma NonHexMacCase()
    ensures ValidateDestination(Atul, Port9999, Mac0ZZZZ) == Fail(MacAddrFormatWrongErr)
  {
    AtulIsHostName();
    assert IsPortValid(Port9999);
    assert !IsHexDigit(Mac0ZZZZ[8]);
  }

  lemma ShortPortCase()
    ensures ValidateDestination(Atul, Port999, Mac0ffff) == Fail(PortFormatWrongErr)
  {
    AtulIsHostName();
  }

  lemma NonDigitPortCase()
    ensures ValidateDestination(Atul, Port999a, Mac0ffff) == Fail(PortFormatWrongErr)
  {
    AtulIsHostName();
    assert !IsDigit(Port999a[3]);
  }

  lemma EmptyHostCase()
    ensures ValidateDestination([], Port9999, Mac0ffff) == Fail(HostNameFormatWrongErr)
  {
  }

  lemma ValidCase()
    ensures ValidateDestination(Atul, Port9999, Mac0ffff) == Pass
  {
    AtulIsHostName();
    assert IsPortValid(Port9999);
    assert IsMacAddrValid(Mac0ffff);
  }

  // "10.0.0.1"
  const DottedQuad: seq<byte> := [0x31, 0x30, 0x2E, 0x30, 0x2E, 0x30, 0x2E, 0x31]

  /** A dotted-quad IPv4 address passes because its numbers are labels of digits,
      not because of any address-specific check. */
  lemma DottedQuadIsHostName()
    ensures IsHostName(DottedQuad)
  {
    var host := DottedQuad;
    var a, b, c, d: seq<byte> := [0x31, 0x30], [0x30], [0x30], [0x31];
    assert host == a + [DOT] + (b + [DOT] + (c + [DOT] + d));
    SplitWithoutDot(d);
    SplitAtFirstDot(c, d);
    SplitAtFirstDot(b, c + [DOT] + d);
    SplitAtFirstDot(a, b + [DOT] + (c + [DOT] + d));
    assert Split(host) == [a, b, c, d];
    assert IsLabel(a) && IsLabel(b) && IsLabel(c) && IsLabel(d);
    assert MatchesHostPattern(host);
    HostPatternIffGrammar(host);
  }

  // "atul-"
  const TrailingHyphen: seq<byte> := [0x61, 0x74, 0x75, 0x6C, 0x2D]

  /** A label may not end with a hyphen. */
  lemma TrailingHyphenRejected()
    ensures !IsHostName(TrailingHyphen)
  {
    var host := TrailingHyphen;
    SplitWithoutDot(host);
    assert !IsLabel(host);
    HostPatternIffGrammar(host);
  }
}
