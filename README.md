# Wake-on-LAN: destination validator and magic-packet builder

This is a Dafny model of the core of a small Wake-on-LAN command-line tool written in Go.
The tool wakes a machine by sending it a "magic packet". The model covers the two pieces
that run before the socket is opened:

- **The destination validator** (`validateDestination`). It checks the host name, then the
  port, then the MAC length, then the MAC format. The first check that fails decides which
  `WolError` is returned. Success is Go's `nil`, modelled as `Pass`.
- **The packet builder** (`createPayload`). It decodes the hex text `FFFFFFFFFFFF` and
  appends it to an empty buffer. It then decodes the 12-digit MAC and appends it sixteen
  times. The result has 102 bytes.

Modules, one per component:

- `Ascii` (ascii.dfy): the `byte` type and the ASCII character classes the patterns use.
- `Hex` (hex.dfy): the part of Go's `encoding/hex` that the builder calls. It holds
  `Decode` and the lower-case `Encode` that inverts it.
- `WolErrors` (errors.dfy): the four error kinds, numbered 0 to 3 as in the source, and the
  message mapping done by `Error()`.
- `Validate` (validate.dfy): the three pattern checks and `validateDestination`.
- `Payload` (payload.dfy): `createPayload`, an imperative loop that appends to a byte
  sequence.

A Go `string` is a sequence of bytes, and `len` counts bytes. So every input string is
modelled as `seq<byte>`, and the MAC length check compares the byte count with 12. Every
character class in the three patterns is ASCII. A byte of a multi-byte UTF-8 character
therefore never matches one, so checking the patterns byte by byte gives the same answer
as Go's regexp engine. Each pattern is written out as a predicate. Each predicate is then
proved equal to an independent description of the strings it accepts:

- Port: the zero-padded four-digit numbers 0 to 9999.
- MAC: the hex encodings of six bytes, in any letter case.
- Host name: one or more labels joined by dots.

The test table's strings appear as byte constants, with the text in a comment beside each.

## Model

| member | source | states |
|---|---|---|
| `WolErrors.Message` | wol.go:24-36 | The message is "Unknown error" exactly when the kind is not one of the four named kinds. It is never empty. |
| `WolErrors.MessagesDistinguishKinds` | wol.go:24-36 | Two errors of named kinds have the same message only if they are the same error. |
| `Validate.IsPortValid` | wol.go:138-142 | Accepts exactly the strings of four bytes, each an ASCII digit 0-9. |
| `Validate.IsMacAddrValid` | wol.go:123-126 | Accepts exactly the strings of twelve bytes, each an ASCII hex digit of either case. There are no separators. |
| `Validate.IsLabel` | wol.go:129 | Accepts one label: a single letter or digit, or a letter or digit, then letters, digits and hyphens, then a letter or digit. |
| `Validate.Split` | wol.go:129 | Gives the pieces of a string between dots, in order. There is always at least one piece; lemma `Validate.JoinDotsSplit` shows the pieces rejoin to the string. |
| `Validate.MatchesHostPattern` | wol.go:129-130 | Accepts a host name exactly when every piece between dots is a label. So the empty string, a leading or trailing dot and two dots in a row are all rejected. |
| `Validate.PortValidIffFourDigitNumber` | wol.go:138-142 | A port passes exactly when it is the four-digit, zero-padded decimal form of a number from 0 to 9999. So "0009" passes, and "9", "999" and "10000" fail. |
| `Validate.PaddedDecimalOfValue` | wol.go:138-142 | Any digit string is the padded decimal form of its own value, at its own width. |
| `Validate.ValueOfPaddedDecimal` | wol.go:138-142 | Reading back the padded form of a number that fits the width gives the number. |
| `Validate.MacValidIffEncodesSixBytes` | wol.go:123-126 | A MAC passes exactly when, lower-cased, it is the hex encoding of some six bytes. Those bytes are its decoding. |
| `Validate.SplitPiecesHaveNoDot` | wol.go:129 | No piece between dots contains a dot. |
| `Validate.SplitJoinDots` | wol.go:129 | Splitting at dots undoes joining dot-free pieces with dots. |
| `Validate.JoinDotsSplit` | wol.go:129 | Joining the pieces with dots gives back the original string. |
| `Validate.HostPatternIffGrammar` | wol.go:129-130 | The host pattern matches exactly the non-empty, dot-joined sequences of labels. Each label begins and ends with a letter or digit and holds only letters, digits and hyphens. |
| `Validate.IsHostNameValid` | wol.go:128-136 | The result is true exactly for host names in that grammar. The second ("IP") pattern is the same string as the first, so retrying with it never changes the result. |
| `Validate.ValidateDestination` | wol.go:92-107 | Passes exactly when the host name, port and MAC are all valid. Any failure carries one of the four named kinds, so its message is never "Unknown error". |
| `Validate.ValidateReportsFirstFailure` | wol.go:92-107 | Each error is returned exactly when its check is the first to fail, in the order host name, port, MAC length, MAC format. |
| `Validate.MacErrorSelection` | wol.go:100-105 | Once host and port pass: a MAC under 12 bytes is a length error whatever it holds; a longer one is a format error, not a length error; a 12-byte one passes exactly when it is all hex digits. |
| `Validate.ValidateAcceptsExactly` | wol.go:92-107 | Validation passes exactly for a grammatical host name, a four-digit port number and the hex encoding of six bytes. |
| `Validate.EmptyHostNameRejected` | wol.go:128-136 | The empty string is not a host name. |
| `Validate.ShortMacCase` | wol_test.go:17 | ("atul", "9999", "00") gives the MAC length error. |
| `Validate.NonHexMacCase` | wol_test.go:18 | ("atul", "9999", "00000000ZZZZ") gives the MAC format error. |
| `Validate.ShortPortCase` | wol_test.go:19 | ("atul", "999", "00000000ffff") gives the port error. |
| `Validate.NonDigitPortCase` | wol_test.go:20 | ("atul", "999a", "00000000ffff") gives the port error. |
| `Validate.EmptyHostCase` | wol_test.go:21 | ("", "9999", "00000000ffff") gives the host-name error. |
| `Validate.ValidCase` | wol.go:92-107 | ("atul", "9999", "00000000ffff") passes. |
| `Validate.DottedQuadIsHostName` | wol.go:132-133 | "10.0.0.1" passes, because each of its numbers is a label of digits. |
| `Validate.TrailingHyphenRejected` | wol.go:129 | "atul-" is rejected, because a label may not end with a hyphen. |
| `Hex.DigitValue` | wol.go:117 | The value of a hex digit is below 16: a digit 0-9 is its own value, and a letter A-F or a-f is 10 to 15 in either case. |
| `Hex.Decode` | wol.go:117 | Decodes an even-length hex string into half as many bytes. Lemma `Hex.DecodeAt` states which digits give which byte. |
| `Hex.DigitFor` | wol.go:117 | The lower-case digit for a value below 16 is a hex digit, and its value is that number. |
| `Hex.DecodeAt` | wol.go:117 | Decoded byte j is 16 times the value of digit 2j plus the value of digit 2j+1. |
| `Hex.DecodeEncode` | wol.go:117 | Decoding undoes lower-case encoding. |
| `Hex.EncodeDecode` | wol.go:117 | Encoding the decoded bytes gives back the digits, lower-cased. Decoding loses only letter case. |
| `Hex.DecodeIgnoresCase` | wol.go:117 | Lower-casing the digits first does not change the decoded bytes. |
| `Payload.CreatePayload` | wol.go:109-120 | The result is the magic packet for the decoded MAC: 102 bytes, the first six 0xFF, and byte i (for i of 6 or more) equal to MAC byte (i - 6) mod 6. |
| `Payload.HeaderDecodesToFF` | wol.go:111-115 | The header text "FFFFFFFFFFFF" is valid hex and decodes to six 0xFF bytes. |
| `Payload.RepeatAt` | wol.go:116-119 | Byte j of copy k in the repeated buffer is byte j of the block. |
| `Payload.HeaderThenCopiesIsMagicPacket` | wol.go:109-120 | Six 0xFF bytes followed by sixteen copies of six bytes form their magic packet. |
| `Payload.MagicPacketBlock` | wol.go:116-119 | For every k from 0 to 15, packet bytes 6+6k up to 12+6k are the MAC bytes. |
| `Payload.MagicPacketUnique` | wol.go:47-53 | Two magic packets for the same MAC bytes are equal. |
| `Payload.PayloadCarriesMac` | wol.go:116-119 | Each block of the built packet hex-encodes back to the caller's MAC text, lower-cased. |
| `Payload.DeadBeefDecodes` | wol.go:117 | "0000deadbeef" is a valid MAC and decodes to 00 00 DE AD BE EF. |
| `Payload.DeadBeefPacket` | wol.go:47-53 | A magic packet for 00 00 DE AD BE EF starts with six 0xFF bytes, and each of its sixteen blocks is 00 00 DE AD BE EF. |
| `Payload.DeadBeefExample` | wol.go:109-120 | Building the packet for "0000deadbeef" gives 102 bytes: the 0xFF header, then 00 00 DE AD BE EF sixteen times. |

## Left out

- `main` (wol.go:54-70): reading command-line flags and printing to standard output. This is I/O.
- `sendMagicPacket` (wol.go:72-90): `net.Dial`, the single write and the close are network
  I/O. Its two pure steps are `net.JoinHostPort` (wol.go:73), which only formats "host:port"
  for the socket (bracketing an IPv6 host) and is left out with the I/O it feeds, and the
  call to `createPayload` (wol.go:74), which is modelled.
- Go's regexp engine: each pattern is written out directly as a predicate on bytes.
- `Payload.CreatePayload`: requires the MAC to be exactly 12 hex digits. `hex.DecodeString`
  accepts any even-length hex string, so a 10- or 14-digit MAC would decode to 5 or 7 bytes
  without error. On a bad digit it returns the bytes decoded before the bad pair, and
  wol.go:117 discards the error, so `createPayload` would write those bytes. The requirement
  excludes all of these inputs: packets built from them are not modelled. `validateDestination`
  rejects every such MAC before `createPayload` is called (wol.go:60-66).
- The error return of `createPayload`: its only source is decoding the constant
  `FFFFFFFFFFFF` (wol.go:111-114), which cannot fail. So the model returns only the bytes.
- The port stays a string, as `validateDestination` receives it. `sendMagicPacket` returns
  network errors unchanged, and it is left out as described above.
