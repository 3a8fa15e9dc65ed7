/** Numbers as big-endian byte strings. */
module BigEndian {
  import opened Bitwise

  /** How many numbers fit into this many bytes. */
  function Bound(width: nat): (n: nat)
    ensures n >= 1
  {
    if width == 0 then 1 else 256 * Bound(width - 1)
  }

  function Encode(n: nat, width: nat): (bytes: seq<Byte>)
    ensures |bytes| == width
  {
    if width == 0 then [] else Encode(n / 256, width - 1) + [n % 256]
  }

  function Decode(bytes: seq<Byte>): nat {
    if bytes == [] then 0 else 256 * Decode(bytes[..|bytes| - 1]) + bytes[|bytes| - 1]
  }

  lemma EncodedLength(n: nat, width: nat)
    ensures |Encode(n, width)| == width
  {
  }

  lemma {:induction false} DecodeEncode(n: nat, width: nat)
    requires n < Bound(width)
    ensures Decode(Encode(n, width)) == n
  {
    if width > 0 {
      DecodeEncode(n / 256, width - 1);
      assert Encode(n, width)[..width - 1] == Encode(n / 256, width - 1);
    }
  }

  lemma EncodeStep(q: nat, b: Byte, width: nat)
    ensures Encode(256 * q + b, width + 1) == Encode(q, width) + [b]
  {
    assert (256 * q + b) / 256 == q && (256 * q + b) % 256 == b;
  }

  lemma {:induction false} EncodeDecode(bytes: seq<Byte>)
    ensures Decode(bytes) < Bound(|bytes|) && Encode(Decode(bytes), |bytes|) == bytes
  {
    hide Encode;
    if bytes != [] {
      var init, last := bytes[..|bytes| - 1], bytes[|bytes| - 1];
      EncodeDecode(init);
      EncodeStep(Decode(init), last, |init|);
      assert bytes == init + [last];
    } else {
      EncodeNothing();
    }
  }

  lemma EncodeNothing()
    ensures Encode(0, 0) == []
  {
  }

  lemma Bound4()
    ensures Bound(4) == 0x1_0000_0000
  {
  }

  lemma Bound8()
    ensures Bound(8) == 0x1_0000_0000_0000_0000
  {
    assert Bound(8) == 256 * 256 * 256 * 256 * Bound(4);
  }
}
