/** The magic-packet builder, `createPayload`: six 0xFF bytes followed by sixteen
    copies of the six MAC bytes, 102 bytes in all, built by appending to a buffer.
 */
module Payload {
  import opened Ascii
  import Hex
  import Validate

  const HeaderLength: nat := 6
  const Repetitions: nat := 16
  const PacketLength: nat := 102

  /** The header as the builder writes it: the hex text "FFFFFFFFFFFF", which it
      decodes before appending. */
  const HeaderHex: seq<byte> := seq(12, _ => 0x46)


  /** `n` copies of `block`, one after another. */
  function Repeat(block: seq<byte>, n: nat): (r: seq<byte>)
    ensures |r| == n * |block|
  {
    if n == 0 then [] else Repeat(block, n - 1) + block
  }

  /** Byte `j` of copy `k` is byte `j` of the block. */
  lemma {:induction false} RepeatAt(block: seq<byte>, n: nat, k: nat, j: nat)
    requires k < n && j < |block|
    ensures k * |block| + j < |Repeat(block, n)|
    ensures Repeat(block, n)[k * |block| + j] == block[j]
  {
    var prefix := Repeat(block, n - 1);
    assert Repeat(block, n) == prefix + block;
    if k < n - 1 {
      RepeatAt(block, n - 1, k, j);
    } else {
      assert k * |block| == |prefix|;
    }
  }

  /** A Wake-on-LAN magic packet for the six bytes `mac6`: 102 bytes, the first six
      0xFF, and every later byte the MAC byte at its offset within its six-byte block. */
  predicate IsMagicPacketFor(p: seq<byte>, mac6: seq<byte>) {
    && |mac6| == 6
    && |p| == PacketLength
    && (forall i :: 0 <= i < HeaderLength ==> p[i] == 0xFF)
    && (forall i :: HeaderLength <= i < |p| ==> p[i] == mac6[(i - HeaderLength) % 6])
  }

  /** Twelve `F` digits decode to six 0xFF bytes. */
  lemma DecodeAllF(s: seq<byte>)
    requires |s| == 12 && forall i :: 0 <= i < |s| ==> s[i] == 0x46
    ensures Hex.IsHexString(s)
    ensures Hex.Decode(s) == [0xFF, 0xFF, 0xFF, 0xFF, 0xFF, 0xFF]
  {
    var d := Hex.Decode(s);
    forall j | 0 <= j < 6
      ensures d[j] == 0xFF
    {
      Hex.DecodeAt(s, j);
      assert s[2 * j] == 0x46 && s[2 * j + 1] == 0x46;
    }
  }

  lemma HeaderDecodesToFF()
    ensures Hex.IsHexString(HeaderHex) && |HeaderHex| == 12
    ensures Hex.Decode(HeaderHex) == [0xFF, 0xFF, 0xFF, 0xFF, 0xFF, 0xFF]
  {
    DecodeAllF(HeaderHex);
  }

  /** The header followed by sixteen copies of six bytes is their magic packet. */
  lemma {:induction false} HeaderThenCopiesIsMagicPacket(mac6: seq<byte>)
    requires |mac6| == 6
    ensures IsMagicPacketFor([0xFF, 0xFF, 0xFF, 0xFF, 0xFF, 0xFF] + Repeat(mac6, Repetitions), mac6)
  {
    var header: seq<byte> := [0xFF, 0xFF, 0xFF, 0xFF, 0xFF, 0xFF];
    var copies := Repeat(mac6, Repetitions);
    var p := header + copies;
    forall i | HeaderLength <= i < |p|
      ensures p[i] == mac6[(i - HeaderLength) % 6]
    {
      var k, j := (i - HeaderLength) / 6, (i - HeaderLength) % 6;
      assert k * 6 + j == i - HeaderLength;
      RepeatAt(mac6, Repetitions, k, j);
    }
  }

  /** `createPayload`: decode the header text and append it, then decode the MAC
      and append it, sixteen times. The MAC must be twelve hex digits, which the
      validator guarantees before the packet is built. */
  method CreatePayload(macAddr: seq<byte>) returns (payload: seq<byte>)
    requires Validate.IsMacAddrValid(macAddr)
    ensures IsMagicPacketFor(payload, Hex.Decode(macAddr))
  {
    var b: seq<byte> := [];
    DecodeAllF(HeaderHex);
    var firstPart := Hex.Decode(HeaderHex);
    b := b + firstPart;
    for i := 0 to Repetitions
      invariant b == [0xFF, 0xFF, 0xFF, 0xFF, 0xFF, 0xFF] + Repeat(Hex.Decode(macAddr), i)
    {
      var mac := Hex.Decode(macAddr);
      b := b + mac;
    }
    payload := b;
    HeaderThenCopiesIsMagicPacket(Hex.Decode(macAddr));
  }

  /** Block `k` of a magic packet (bytes 6 + 6k up to 12 + 6k) is the MAC. */
  lemma MagicPacketBlock(p: seq<byte>, mac6: seq<byte>, k: nat)
    requires IsMagicPacketFor(p, mac6) && k < Repetitions
    ensures p[HeaderLength + 6 * k .. HeaderLength + 6 * k + 6] == mac6
  {
  }

  /** A magic packet is determined by its MAC: two packets for the same bytes are equal. */
  lemma MagicPacketUnique(p: seq<byte>, q: seq<byte>, mac6: seq<byte>)
    requires IsMagicPacketFor(p, mac6) && IsMagicPacketFor(q, mac6)
    ensures p == q
  {
  }

  /** Every block of the built packet encodes back to the MAC text, lower-cased:
      from the packet one recovers the MAC the caller gave, up to letter case. */
  lemma PayloadCarriesMac(macAddr: seq<byte>, payload: seq<byte>, k: nat)
    requires Validate.IsMacAddrValid(macAddr)
    requires IsMagicPacketFor(payload, Hex.Decode(macAddr)) && k < Repetitions
    ensures Hex.Encode(payload[HeaderLength + 6 * k .. HeaderLength + 6 * k + 6]) == LowerAll(macAddr)
  {
    MagicPacketBlock(payload, Hex.Decode(macAddr), k);
    Validate.MacValidIffEncodesSixBytes(macAddr);
  }

  /** The bytes of the MAC text "0000deadbeef". */
  const DeadBeefText: seq<byte> := [0x30, 0x30, 0x30, 0x30, 0x64, 0x65, 0x61, 0x64, 0x62, 0x65, 0x65, 0x66]

  lemma DeadBeefDecodes()
    ensures Validate.IsMacAddrValid(DeadBeefText)
    ensures Hex.Decode(DeadBeefText) == [0x00, 0x00, 0xDE, 0xAD, 0xBE, 0xEF]
  {
  }

  /** The example packet: MAC "0000deadbeef" gives six 0xFF bytes and then
      00 00 DE AD BE EF sixteen times. */
  lemma DeadBeefPacket(p: seq<byte>)
    requires IsMagicPacketFor(p, [0x00, 0x00, 0xDE, 0xAD, 0xBE, 0xEF])
    ensures p[..HeaderLength] == [0xFF, 0xFF, 0xFF, 0xFF, 0xFF, 0xFF]
    ensures forall k :: 0 <= k < Repetitions ==>
      p[HeaderLength + 6 * k .. HeaderLength + 6 * k + 6] == [0x00, 0x00, 0xDE, 0xAD, 0xBE, 0xEF]
  {
  }

  /** Building the packet for "0000deadbeef" gives exactly the example packet. */
  method DeadBeefExample() returns (payload: seq<byte>)
    ensures |payload| == PacketLength
    ensures payload[..HeaderLength] == [0xFF, 0xFF, 0xFF, 0xFF, 0xFF, 0xFF]
    ensures forall k :: 0 <= k < Repetitions ==>
      payload[HeaderLength + 6 * k .. HeaderLength + 6 * k + 6] == [0x00, 0x00, 0xDE, 0xAD, 0xBE, 0xEF]
  {
    DeadBeefDecodes();
    payload := CreatePayload(DeadBeefText);
    DeadBeefPacket(payload);
  }
}
