/** The bit stream of a QR symbol: writing numbers as bits, padding to codewords, and reading them back. */
module BitStream {
  import opened Bitwise

  /** Bit `index` of a 32-bit value, as `(value >>> index) & 1`; the shift count is taken modulo 32. */
  function BitAt(value: nat, index: nat): bool {
    ShiftRight(value % 0x1_0000_0000, index % 32) % 2 == 1
  }

  /** The low `length` bits of a value, most significant first. */
  function ToBits(value: nat, length: nat): (bits: seq<bool>)
    ensures |bits| == length
  {
    if length == 0 then [] else [BitAt(value, length - 1)] + ToBits(value, length - 1)
  }

  function FromBits(bits: seq<bool>): nat {
    if bits == [] then 0
    else 2 * FromBits(bits[..|bits| - 1]) + (if bits[|bits| - 1] then 1 else 0)
  }

  function Falses(n: nat): (bits: seq<bool>)
    ensures |bits| == n
  {
    seq(n, _ => false)
  }

  /** Bytes from bits, eight at a time. */
  function Pack(bits: seq<bool>): (bytes: seq<Byte>)
    requires |bits| % 8 == 0
    ensures 8 * |bytes| == |bits|
  {
    if bits == [] then []
    else
      FromBitsBound(bits[..8]);
      [FromBits(bits[..8])] + Pack(bits[8..])
  }

  function Unpack(bytes: seq<Byte>): (bits: seq<bool>)
    ensures |bits| == 8 * |bytes|
  {
    if bytes == [] then [] else ToBits(bytes[0], 8) + Unpack(bytes[1..])
  }

  lemma {:induction false} FromBitsBound(bits: seq<bool>)
    ensures FromBits(bits) < Pow2(|bits|)
    ensures |bits| == 8 ==> FromBits(bits) < 256
  {
    if bits != [] {
      FromBitsBound(bits[..|bits| - 1]);
    }
    assert Pow2(4) == 16 && Pow2(8) == 256;
  }

  lemma BitAtHalf(value: nat, index: nat)
    requires value < 0x1_0000_0000 && index < 31
    ensures BitAt(value, index + 1) == BitAt(value / 2, index)
    ensures BitAt(value, 0) == (value % 2 == 1)
  {
    assert index + 1 < 32 && (index + 1) % 32 == index + 1 && index % 32 == index;
    assert value % 0x1_0000_0000 == value && (value / 2) % 0x1_0000_0000 == value / 2;
  }

  lemma {:induction false} ToBitsHalf(value: nat, length: nat)
    requires value < 0x1_0000_0000 && 0 < length <= 32
    ensures ToBits(value, length) == ToBits(value / 2, length - 1) + [value % 2 == 1]
  {
    if length == 1 {
      BitAtHalf(value, 0);
      assert ToBits(value, 1) == [BitAt(value, 0)] + ToBits(value, 0);
    } else {
      ToBitsHalf(value, length - 1);
      BitAtHalf(value, length - 2);
    }
  }

  /** Writing a value and reading it back. */
  lemma {:induction false} FromToBits(value: nat, length: nat)
    requires length <= 32 && value < Pow2(length) && value < 0x1_0000_0000
    ensures FromBits(ToBits(value, length)) == value
  {
    if length > 0 {
      hide BitAt, ToBits;
      ToBitsHalf(value, length);
      FromToBits(value / 2, length - 1);
      assert (ToBits(value / 2, length - 1) + [value % 2 == 1])[..length - 1] == ToBits(value / 2, length - 1);
    }
  }

  lemma {:induction false} ToFromBits(bits: seq<bool>)
    requires |bits| <= 32 && FromBits(bits) < 0x1_0000_0000
    ensures ToBits(FromBits(bits), |bits|) == bits
  {
    if bits != [] {
      var n := |bits| - 1;
      var v := FromBits(bits);
      hide BitAt, ToBits;
      assert v / 2 == FromBits(bits[..n]) && (v % 2 == 1) == bits[n];
      ToFromBits(bits[..n]);
      ToBitsHalf(v, n + 1);
      assert bits == bits[..n] + [bits[n]];
    } else {
      assert ToBits(0, 0) == [];
    }
  }

  lemma {:induction false} UnpackPack(bits: seq<bool>)
    requires |bits| % 8 == 0
    ensures Unpack(Pack(bits)) == bits
  {
    if bits != [] {
      UnpackPack(bits[8..]);
      FromBitsBound(bits[..8]);
      ToFromBits(bits[..8]);
      assert Pack(bits)[1..] == Pack(bits[8..]);
      assert bits == bits[..8] + bits[8..];
    }
  }

  lemma {:induction false} PackUnpack(bytes: seq<Byte>)
    ensures Pack(Unpack(bytes)) == bytes
  {
    if bytes != [] {
      PackUnpack(bytes[1..]);
      assert Pow2(4) == 16 && Pow2(8) == 256;
      FromToBits(bytes[0], 8);
      var bits := Unpack(bytes);
      assert bits[..8] == ToBits(bytes[0], 8) && bits[8..] == Unpack(bytes[1..]);
    }
  }

  lemma {:induction false} UnpackConcat(a: seq<Byte>, b: seq<Byte>)
    ensures Unpack(a + b) == Unpack(a) + Unpack(b)
  {
    hide ToBits;
    if a == [] {
      assert a + b == b;
    } else {
      UnpackConcat(a[1..], b);
      assert (a + b)[1..] == a[1..] + b;
    }
  }
}

/** The growing bit list of the encoder and its conversion to data codewords. */
module BitBuffers {
  import opened Wrappers
  import opened Bitwise
  import opened BitStream

  datatype RangeError = RangeError

  /** The terminator: at most four zero bits. */
  function TerminatorBits(used: nat, capacity: nat): nat
    requires used <= capacity
  {
    if capacity - used < 4 then capacity - used else 4
  }

  /** Number of zero bits that end the payload: the terminator, then up to the next byte. */
  function PaddingBits(used: nat, capacity: nat): (n: nat)
    requires used <= capacity
    ensures (used + n) % 8 == 0
    ensures TerminatorBits(used, capacity) <= n < TerminatorBits(used, capacity) + 8
    ensures capacity % 8 == 0 ==> used + n <= capacity
  {
    var t := TerminatorBits(used, capacity);
    var r := (used + t) % 8;
    if r == 0 then t else t + 8 - r
  }

  /** Alternating pad codewords. */
  function Pads(n: nat): (pads: seq<Byte>)
    ensures |pads| == n
  {
    seq(n, i requires 0 <= i < n => if i % 2 == 0 then 0xec else 0x11)
  }

  /** The data codewords of a payload. */
  function Codewords(bits: seq<bool>, capacity: nat): (codewords: seq<Byte>)
    requires |bits| <= capacity && capacity % 8 == 0
    ensures 8 * |codewords| == capacity
  {
    var padded := bits + Falses(PaddingBits(|bits|, capacity));
    Pack(padded) + Pads(capacity / 8 - |padded| / 8)
  }

  /** Data codewords begin with the payload bits. */
  lemma CodewordsCarryBits(bits: seq<bool>, capacity: nat)
    requires |bits| <= capacity && capacity % 8 == 0
    ensures bits <= Unpack(Codewords(bits, capacity))
  {
    var padded := bits + Falses(PaddingBits(|bits|, capacity));
    var pads := Pads(capacity / 8 - |padded| / 8);
    UnpackConcat(Pack(padded), pads);
    UnpackPack(padded);
  }

  /** Byte j of the bits before `index`, with zeros in place of the bits still to come. */
  function SeenByte(bits: seq<bool>, index: nat, j: nat): nat
    requires index <= |bits| && 8 * j + 8 <= |bits|
  {
    if index <= 8 * j then 0
    else if index < 8 * j + 8 then FromBits(bits[8 * j..index] + Falses(8 * j + 8 - index))
    else FromBits(bits[8 * j..8 * j + 8])
  }

  lemma {:induction false} FromBitsFalses(p: seq<bool>, n: nat)
    ensures FromBits(p + Falses(n)) == Shift(FromBits(p), n)
  {
    if n == 0 {
      assert p + Falses(0) == p;
    } else {
      FromBitsFalses(p, n - 1);
      assert (p + Falses(n))[..|p| + n - 1] == p + Falses(n - 1);
    }
  }

  lemma {:induction false} ShiftOdd(f: nat, n: nat)
    ensures Shift(2 * f + 1, n) == Shift(f, n + 1) + Pow2(n)
  {
    if n != 0 {
      ShiftOdd(f, n - 1);
    }
  }

  lemma {:induction false} ShiftRightPow2(m: nat, n: nat)
    ensures ShiftRight(Pow2(m + n), n) == Pow2(m)
  {
    if n != 0 {
      ShiftRightPow2(m, n - 1);
    }
  }

  /** Or-ing in the next bit of a byte whose later bits are still zero. */
  lemma OrNextBit(p: seq<bool>, n: nat)
    requires |p| + n == 7
    ensures Or(FromBits(p + Falses(n + 1)), ShiftRight(0x80, |p|)) == FromBits(p + [true] + Falses(n))
  {
    var f := FromBits(p);
    hide *;
    FromBitsFalses(p, n + 1);
    FromBitsFalses(p + [true], n);
    FromBitsSnoc(p, true);
    Pow2Seven();
    ShiftRightPow2(n, |p|);
    Pow2Step(n);
    ShiftDisjoint(f, Pow2(n), n + 1);
    ShiftOdd(f, n);
  }

  lemma Pow2Seven()
    ensures Pow2(7) == 0x80
  {
    assert Pow2(4) == 16;
  }

  lemma FromBitsSnoc(p: seq<bool>, b: bool)
    ensures FromBits(p + [b]) == 2 * FromBits(p) + if b then 1 else 0
  {
    assert (p + [b])[..|p|] == p;
  }

  lemma Pow2Step(n: nat)
    ensures Pow2(n + 1) == 2 * Pow2(n) && Pow2(n) < Pow2(n + 1)
  {}

  lemma {:induction false} PackAt(bits: seq<bool>, j: nat)
    requires |bits| % 8 == 0 && 8 * j < |bits|
    ensures j < |Pack(bits)| && Pack(bits)[j] == FromBits(bits[8 * j..8 * j + 8])
  {
    if j > 0 {
      PackAt(bits[8..], j - 1);
      SliceOfTail(bits, 8, 8 * (j - 1), 8);
    }
  }

  lemma SliceOfTail(bits: seq<bool>, drop: nat, from: nat, count: nat)
    requires drop + from + count <= |bits|
    ensures bits[drop..][from..from + count] == bits[drop + from..drop + from + count]
  {
    var a, b := bits[drop..][from..from + count], bits[drop + from..drop + from + count];
    forall k | 0 <= k < count
      ensures a[k] == b[k]
    {
    }
  }

  /** Only the byte that holds a bit changes when the bit is or-ed in. */
  lemma SeenByteStep(bits: seq<bool>, index: nat, j: nat)
    requires index < |bits| && 8 * j + 8 <= |bits|
    ensures index / 8 != j ==> SeenByte(bits, index + 1, j) == SeenByte(bits, index, j)
    ensures index / 8 == j && !bits[index] ==> SeenByte(bits, index + 1, j) == SeenByte(bits, index, j)
    ensures index / 8 == j && bits[index] ==>
      SeenByte(bits, index + 1, j) == Or(SeenByte(bits, index, j), ShiftRight(0x80, index % 8))
  {
    if index / 8 == j {
      var k := index - 8 * j;
      assert k == index % 8;
      var p, n := bits[8 * j..index], 7 - k;
      assert bits[8 * j..index + 1] == p + [bits[index]];
      SeenByteForm(bits, index, j, n + 1);
      SeenByteForm(bits, index + 1, j, n);
      hide *;
      if bits[index] {
        OrNextBit(p, n);
      } else {
        assert p + [false] + Falses(n) == p + Falses(n + 1) by { FalsesSnoc(n); }
      }
    }
  }

  /** The terminator is part of the padding, and what follows it is less than a byte. */
  lemma PaddingBetween(used: nat, capacity: nat)
    requires used <= capacity
    ensures var terminator := if capacity - used < 4 then capacity - used else 4;
            terminator <= PaddingBits(used, capacity) < terminator + 8
    ensures (used + PaddingBits(used, capacity)) % 8 == 0
  {
  }

  lemma NotYet(n: nat, total: nat)
    requires n <= total < n + 8 && total % 8 == 0
    ensures n % 8 == 0 <==> n == total
  {
  }

  lemma FalsesNone()
    ensures Falses(0) == []
  {}

  lemma FalsesAppend(bits: seq<bool>, n: nat)
    ensures bits + Falses(n) + [false] == bits + Falses(n + 1)
  {
    var a, b := bits + Falses(n) + [false], bits + Falses(n + 1);
    forall k | 0 <= k < |b|
      ensures a[k] == b[k]
    {
    }
  }

  lemma FalsesSnoc(n: nat)
    ensures Falses(n + 1) == [false] + Falses(n)
  {}

  lemma SeenByteForm(bits: seq<bool>, index: nat, j: nat, n: nat)
    requires index <= |bits| && 8 * j + 8 <= |bits| && 8 * j <= index && index + n == 8 * j + 8
    ensures SeenByte(bits, index, j) == FromBits(bits[8 * j..index] + Falses(n))
  {
    if n == 8 {
      assert bits[8 * j..index] + Falses(8) == Falses(8) == [] + Falses(8);
      FromBitsFalses([], 8);
      ShiftZero(8);
    } else if n == 0 {
      assert bits[8 * j..index] + Falses(0) == bits[8 * j..8 * j + 8];
    }
  }

  lemma {:induction false} ShiftZero(n: nat)
    ensures Shift(0, n) == 0
  {
    if n != 0 {
      ShiftZero(n - 1);
    }
  }

  /** Writes the bits into zeroed bytes, eight to a byte, most significant first. */
  method WriteBits(bits: seq<bool>, codewords: array<Byte>)
    requires |bits| % 8 == 0 && |bits| <= 8 * codewords.Length
    requires forall j | 0 <= j < codewords.Length :: codewords[j] == 0
    modifies codewords
    ensures codewords[..|bits| / 8] == Pack(bits)
    ensures forall j | |bits| / 8 <= j < codewords.Length :: codewords[j] == 0
  {
    hide Or, ShiftRight, Pack, FromBits;
    for index := 0 to |bits|
      invariant forall j | 0 <= j < |bits| / 8 :: codewords[j] == SeenByte(bits, index, j)
      invariant forall j | |bits| / 8 <= j < codewords.Length :: codewords[j] == 0
    {
      forall j: nat | j < |bits| / 8
        ensures index / 8 != j ==> SeenByte(bits, index + 1, j) == SeenByte(bits, index, j)
      {
        SeenByteStep(bits, index, j);
      }
      var c := index / 8;
      SeenByteStep(bits, index, c);
      if bits[index] {
        SeenByteBound(bits, index + 1, c);
        codewords[c] := Or(codewords[c], ShiftRight(0x80, index % 8));
      }
    }
    forall j: nat | j < |bits| / 8
      ensures j < |Pack(bits)| && codewords[j] == Pack(bits)[j]
    {
      PackAt(bits, j);
    }
  }

  lemma SeenByteBound(bits: seq<bool>, index: nat, j: nat)
    requires index <= |bits| && 8 * j + 8 <= |bits|
    ensures SeenByte(bits, index, j) < 256
  {
    if 8 * j < index < 8 * j + 8 {
      FromBitsBound(bits[8 * j..index] + Falses(8 * j + 8 - index));
    } else {
      FromBitsBound(bits[8 * j..8 * j + 8]);
    }
  }

  /** Fills the rest of the codewords with two pad bytes in turn. */
  method WritePads(codewords: array<Byte>, start: nat)
    requires start <= codewords.Length
    modifies codewords
    ensures codewords[..start] == old(codewords[..start])
    ensures codewords[start..] == Pads(codewords.Length - start)
  {
    var pad := 0;
    for index := start to codewords.Length
      invariant pad == index - start
      invariant forall k | 0 <= k < start :: codewords[k] == old(codewords[k])
      invariant forall k | start <= k < index :: codewords[k] == Pads(codewords.Length - start)[k - start]
    {
      codewords[index] := if pad % 2 == 0 then 0xec else 0x11;
      pad := pad + 1;
    }
  }

  class BitBuffer {
    var bits: seq<bool>

    constructor ()
      ensures bits == []
    {
      bits := [];
    }

    method Push(value: nat, length: nat)
      modifies this
      ensures bits == old(bits) + ToBits(value, length)
    {
      var index := length;
      while index > 0
        invariant bits + ToBits(value, index) == old(bits) + ToBits(value, length)
      {
        index := index - 1;
        assert ToBits(value, index + 1) == [BitAt(value, index)] + ToBits(value, index);
        bits := bits + [BitAt(value, index)];
      }
    }

    /** Appends the terminator and the bits up to the next byte boundary. */
    method PadToByte(capacity: nat)
      requires |bits| <= capacity
      modifies this
      ensures bits == old(bits) + Falses(PaddingBits(|old(bits)|, capacity))
    {
      hide *;
      ghost var used := |bits|;
      ghost var total := used + PaddingBits(used, capacity);
      var terminator := if capacity - |bits| < 4 then capacity - |bits| else 4;
      PaddingBetween(used, capacity);
      FalsesNone();
      for index := 0 to terminator
        invariant bits == old(bits) + Falses(index) && |bits| == used + index
      {
        FalsesAppend(old(bits), index);
        bits := bits + [false];
      }
      while |bits| % 8 != 0
        invariant used <= |bits| <= total < |bits| + 8
        invariant bits == old(bits) + Falses(|bits| - used)
        decreases total - |bits|
      {
        NotYet(|bits|, total);
        FalsesAppend(old(bits), |bits| - used);
        bits := bits + [false];
      }
      NotYet(|bits|, total);
    }

    /**
     * Pads the bits to the symbol's capacity and packs them into codewords.
     * The capacity is a whole number of codewords.
     */
    method ToCodewords(capacity: nat) returns (r: Result<array<Byte>, RangeError>)
      requires capacity % 8 == 0
      modifies this
      ensures r.Success? <==> |old(bits)| <= capacity
      ensures r.Success? ==> fresh(r.value) && r.value[..] == Codewords(old(bits), capacity)
      ensures r.Failure? ==> bits == old(bits)
    {
      hide Pads, Pack, Falses;
      if |bits| > capacity {
        return Failure(RangeError);
      }
      PadToByte(capacity);
      var codewords := new Byte[capacity / 8](_ => 0);
      WriteBits(bits, codewords);
      WritePads(codewords, |bits| / 8);
      assert codewords[..] == codewords[..|bits| / 8] + codewords[|bits| / 8..];
      return Success(codewords);
    }
  }
}
