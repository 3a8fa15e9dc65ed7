/** The byte-mode payload: mode indicator, character count and bytes. */
module Payload {
  import opened Wrappers
  import opened Bitwise
  import opened BitStream

  const BYTE_MODE: nat := 4

  function Message(bytes: seq<Byte>, countBits: nat): (bits: seq<bool>)
    ensures |bits| == 4 + countBits + 8 * |bytes|
  {
    ToBits(BYTE_MODE, 4) + ToBits(|bytes|, countBits) + Unpack(bytes)
  }

  /** Reads a payload from the front of a bit stream. */
  function ParseMessage(bits: seq<bool>, countBits: nat): Option<seq<Byte>> {
    if |bits| < 4 + countBits || FromBits(bits[..4]) != BYTE_MODE then None
    else
      var count := FromBits(bits[4..4 + countBits]);
      var body := bits[4 + countBits..];
      if |body| < 8 * count then None else Some(Pack(body[..8 * count]))
  }

  /** Whatever follows it, a payload is read back. */
  lemma ParseRoundTrip(bytes: seq<Byte>, countBits: nat, bits: seq<bool>)
    requires countBits <= 16 && |bytes| < Pow2(countBits) && |bytes| < 0x1_0000_0000
    requires Message(bytes, countBits) <= bits
    ensures ParseMessage(bits, countBits) == Some(bytes)
  {
    assert Pow2(4) == 16;
    hide Pow2, ToBits, FromBits;
    FromToBits(BYTE_MODE, 4);
    FromToBits(|bytes|, countBits);
    PackUnpack(bytes);
    var m := Message(bytes, countBits);
    assert bits[..4] == m[..4] == ToBits(BYTE_MODE, 4);
    assert bits[4..4 + countBits] == m[4..4 + countBits] == ToBits(|bytes|, countBits);
    assert bits[4 + countBits..][..8 * |bytes|] == m[4 + countBits..] == Unpack(bytes);
  }
}
