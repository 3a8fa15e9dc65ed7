/** BCH codes of the format and version information. */
module Bch {
  import opened Bitwise
  import opened BinaryPolynomials

  const FORMAT_GENERATOR: nat := 0x537
  const FORMAT_MASK: nat := 0x5412
  const VERSION_GENERATOR: nat := 0x1f25

  /**
   * Counts bits by shifting. The shift count wraps at 32, so a value with bit 31 set
   * would never be shifted down to zero.
   */
  method MeasureBits(value: nat) returns (length: nat)
    requires value < 0x8000_0000
    ensures length == BitLength(value)
    ensures length <= 31
  {
    hide *;
    Pow2Values();
    BitLengthBelow(value, 31);
    length := 0;
    DivideOut(value, Pow2(0));
    BitLengthBelow(value, 0);
    while value / Pow2(length) != 0
      invariant length <= BitLength(value)
      invariant value / Pow2(length) != 0 <==> BitLength(value) > length
      decreases BitLength(value) - length
    {
      length := length + 1;
      BitLengthBelow(value, length);
      DivideOut(value, Pow2(length));
    }
  }

  lemma DivideOut(value: nat, p: nat)
    requires p > 0
    ensures value / p != 0 <==> value >= p
  {}

  /** The remainder of value on division by generator, for 32-bit operands. */
  method Bch(value: nat, generator: nat, generatorBits: nat) returns (remainder: nat)
    requires value < 0x8000_0000
    requires 0 < generatorBits == BitLength(generator)
    ensures remainder == Remainder(value, generator)
    ensures IsRemainder(value, generator, remainder)
  {
    hide *;
    HasBits(generator);
    RemainderIsRemainder(value, generator);
    remainder := value;
    var length := MeasureBits(remainder);
    while length >= generatorBits
      invariant remainder < 0x8000_0000
      invariant length == BitLength(remainder)
      invariant Remainder(remainder, generator) == Remainder(value, generator)
      decreases BitLength(remainder)
    {
      BchStep(remainder, generator);
      var shifted := generator * Pow2(length - generatorBits);
      assert shifted < 0x8000_0000;
      remainder := Xor(remainder, shifted);
      length := MeasureBits(remainder);
    }
    RemainderOfShort(remainder, generator);
  }

  lemma HasBits(value: nat)
    ensures BitLength(value) > 0 ==> value != 0
  {
  }

  /** One step of the division stays within 31 bits. */
  lemma BchStep(value: nat, generator: nat)
    requires generator != 0 && value < 0x8000_0000 && BitLength(generator) <= BitLength(value)
    ensures var shifted := generator * Pow2(BitLength(value) - BitLength(generator));
            var next := Xor(value, shifted);
            && shifted < 0x8000_0000 && next < 0x8000_0000 && BitLength(next) < BitLength(value)
            && Remainder(next, generator) == Remainder(value, generator)
  {
    hide BitLength, Xor, Pow2;
    Pow2Values();
    AlignedShrinks(value, generator);
    var shifted := generator * Pow2(BitLength(value) - BitLength(generator));
    BitLengthBelow(value, 31);
    BitLengthBelow(shifted, 31);
    BitLengthBelow(Xor(value, shifted), 31);
  }

  lemma RemainderOfShort(value: nat, generator: nat)
    requires generator != 0 && BitLength(value) < BitLength(generator)
    ensures Remainder(value, generator) == value
  {
    hide BitLength;
  }

  lemma GeneratorLengths()
    ensures BitLength(FORMAT_GENERATOR) == 11 && BitLength(VERSION_GENERATOR) == 13
  {
    assert Pow2(1) == 2;
    hide *;
    Pow2Values();
    Pow2Add(10, 1);
    Pow2Add(12, 1);
    BitLengthBelow(FORMAT_GENERATOR, 10);
    BitLengthBelow(FORMAT_GENERATOR, 11);
    BitLengthBelow(VERSION_GENERATOR, 12);
    BitLengthBelow(VERSION_GENERATOR, 13);
  }

  /** Format information before masking: level M (bits 00), the mask number, and ten check bits. */
  function FormatWord(mask: nat): nat {
    Or(mask * 1024, Remainder(mask * 1024, FORMAT_GENERATOR))
  }

  function FormatBits(mask: nat): nat {
    Xor(FormatWord(mask), FORMAT_MASK)
  }

  /** Version information: the version number and twelve check bits. */
  function VersionBits(version: nat): nat {
    Or(version * 4096, Remainder(version * 4096, VERSION_GENERATOR))
  }

  lemma CheckedWord(data: nat, n: nat, generator: nat)
    requires BitLength(generator) == n + 1
    ensures var r := Remainder(data * Pow2(n), generator);
            && r < Pow2(n)
            && Or(data * Pow2(n), r) == data * Pow2(n) + r
            && exists q: nat :: Or(data * Pow2(n), r) == Clmul(q, generator)
  {
    assert generator != 0;
    hide *;
    var r := Remainder(data * Pow2(n), generator);
    RemainderIsRemainder(data * Pow2(n), generator);
    assert BitLength(r) <= n by { IsRemainderShort(data * Pow2(n), generator, r); }
    BitLengthBelow(r, n);
    OrDisjoint(data, r, n);
    CodewordIsMultiple(data * Pow2(n), generator);
  }

  lemma IsRemainderShort(p: nat, g: nat, r: nat)
    requires IsRemainder(p, g, r)
    ensures BitLength(r) < BitLength(g)
  {}

  /** Format words are codewords that carry their data, level and mask number, in their top bits. */
  lemma FormatWordCarriesMask(mask: nat)
    requires mask < 32
    ensures exists q: nat :: FormatWord(mask) == Clmul(q, FORMAT_GENERATOR)
    ensures FormatWord(mask) / 1024 == mask
    ensures FormatBits(mask) < 0x8000
    ensures Xor(FormatBits(mask), FORMAT_MASK) / 1024 == mask
  {
    hide Remainder, Clmul, Xor, Or, Pow2, BitLength;
    GeneratorLengths();
    Pow2Values();
    CheckedWord(mask, 10, FORMAT_GENERATOR);
    XorBound(FormatWord(mask), FORMAT_MASK, 15);
    XorCancel(FormatWord(mask), FORMAT_MASK);
  }

  lemma VersionBitsCarryVersion(version: nat)
    requires version < 64
    ensures exists q: nat :: VersionBits(version) == Clmul(q, VERSION_GENERATOR)
    ensures VersionBits(version) / 4096 == version
    ensures VersionBits(version) < 0x4_0000
  {
    hide Remainder, Clmul, Xor, Or, Pow2, BitLength;
    GeneratorLengths();
    Pow2Values();
    CheckedWord(version, 12, VERSION_GENERATOR);
  }
}
