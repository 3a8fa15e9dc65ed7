/** What a finished symbol looks like, and how to read one back. */
module Symbol {
  import opened Wrappers
  import opened Bitwise
  import opened Bch
  import opened BitStream
  import opened BitBuffers
  import opened Payload
  import opened Interleaving
  import opened ReedSolomon
  import opened Template
  import opened Placement
  import opened Masking
  import opened Capacity

  // --- Writing ------------------------------------------------------------------------

  /** The smallest version from `from` on that holds a payload of n bytes. */
  function FindVersion(n: nat, from: nat): (version: Option<nat>)
    requires 1 <= from <= 11
    ensures version.Some? ==> from <= version.value <= 10 && Fits(n, version.value)
    ensures forall v | from <= v <= 10 && (version.None? || v < version.value) :: !Fits(n, v)
    decreases 11 - from
  {
    if from == 11 then None
    else if Fits(n, from) then Some(from)
    else FindVersion(n, from + 1)
  }

  /** A payload fits exactly when it has at most 213 bytes. */
  lemma PayloadLimit(n: nat)
    ensures FindVersion(n, 1).Some? <==> n <= 213
  {
    if n <= 213 {
      assert Fits(n, 10);
    } else {
      assert forall v | 1 <= v <= 10 :: !Fits(n, v) by {
        forall v: nat | 1 <= v <= 10
          ensures DataCodewords(v) <= 216
        {}
      }
    }
  }

  /** The padded data codewords of a payload. */
  function PayloadCodewords(bytes: seq<Byte>, version: nat): (codewords: seq<Byte>)
    requires 1 <= version <= 10 && Fits(|bytes|, version)
    ensures |codewords| == DataCodewords(version)
  {
    MessageFits(|bytes|, version, DataCodewords(version));
    Codewords(Message(bytes, CountBits(version)), 8 * DataCodewords(version))
  }

  lemma MessageFits(n: nat, version: nat, codewords: nat)
    requires 1 <= version <= 10 && codewords == DataCodewords(version)
    ensures Fits(n, version) <==> 4 + CountBits(version) + 8 * n <= 8 * codewords
    ensures (8 * codewords) % 8 == 0
  {}

  function DataBlocks(version: nat, codewords: seq<Byte>): seq<seq<Byte>>
    requires 1 <= version <= 10 && |codewords| == DataCodewords(version)
  {
    LengthsTotal(version);
    Split(codewords, VersionLengths(version))
  }

  function CheckBlocks(blocks: seq<seq<Byte>>, n: nat): (checks: seq<seq<Byte>>)
    requires n > 0
    ensures |checks| == |blocks|
  {
    seq(|blocks|, b requires 0 <= b < |blocks| => Check(blocks[b], n))
  }

  /** Data codewords column by column, then error-correction codewords column by column. */
  function FinalCodewords(version: nat, codewords: seq<Byte>): seq<Byte>
    requires 1 <= version <= 10 && |codewords| == DataCodewords(version)
  {
    var blocks := DataBlocks(version, codewords);
    Columns(blocks, 0, LongestBlock(version)) + Columns(CheckBlocks(blocks, EcPerBlock(version)), 0, EcPerBlock(version))
  }

  function IndexOf(order: Order, p: Pos): (i: nat)
    requires p in order
    ensures i < |order| && order[i] == p
  {
    if order[0] == p then 0 else 1 + IndexOf(order[1..], p)
  }

  /** A module after the data has been placed on the template. */
  function PlacedModule(version: nat, final: seq<Byte>, r: nat, c: nat): Module
    requires 1 <= version <= 10
  {
    if TemplateAt(version, r, c) != 0 then TemplateAt(version, r, c)
    else if Pos(r, c) in FreeOrder(version) then DataBit(final, IndexOf(FreeOrder(version), Pos(r, c)))
    else 0
  }

  /** A module of the symbol drawn with a given mask. */
  function CandidateModule(version: nat, final: seq<Byte>, mask: nat, r: nat, c: nat): Module
    requires 1 <= version <= 10 && mask < 8
  {
    if OnFormatBits(SizeOf(version), r, c) then FormatModule(SizeOf(version), mask, r, c)
    else MaskedModule(mask, r, c, PlacedModule(version, final, r, c))
  }

  // --- Reading ------------------------------------------------------------------------

  /** Darkness of each module, by row and column. */
  type View = (nat, nat) -> bool

  /** Where bit i of the format information is read, around the top left finder. */
  function FormatPos(i: nat): Pos
    requires i < 15
  {
    if i < 6 then Pos(i, 8) else if i == 6 then Pos(7, 8) else if i == 7 then Pos(8, 8)
    else if i == 8 then Pos(8, 7) else Pos(8, 14 - i)
  }

  /** Where the second copy of bit i is read. */
  function FormatPosSecond(size: nat, i: nat): Pos
    requires i < 15 && size >= 21
  {
    if i < 8 then Pos(8, size - 1 - i) else Pos(size - 15 + i, 8)
  }

  function ReadFormat(dark: View): nat {
    FromBits(seq(15, k requires 0 <= k < 15 => var p := FormatPos(14 - k); dark(p.row, p.col)))
  }

  function ReadFormatSecond(size: nat, dark: View): nat
    requires size >= 21
  {
    FromBits(seq(15, k requires 0 <= k < 15 => var p := FormatPosSecond(size, 14 - k); dark(p.row, p.col)))
  }

  /** The data bits, unmasked, in the order of the zigzag. */
  function ReadDataBits(order: Order, mask: nat, dark: View): (bits: seq<bool>)
    requires mask < 8
    ensures |bits| == |order|
  {
    seq(|order|, k requires 0 <= k < |order| => dark(order[k].row, order[k].col) != Masked(mask, order[k].row, order[k].col))
  }

  /** The data codewords, out of the interleaved bits. */
  function ReadCodewords(version: nat, bits: seq<bool>): Option<seq<Byte>>
    requires 1 <= version <= 10
  {
    if |bits| < 8 * DataCodewords(version) then None
    else
      var bytes := Pack(bits[..8 * DataCodewords(version)]);
      if |bytes| != ColumnsSize(VersionLengths(version), 0, LongestBlock(version)) then None
      else Some(Flatten(Deinterleave(VersionLengths(version), 0, LongestBlock(version), bytes)))
  }

  /** Reads a symbol of known version. */
  function ReadView(version: nat, dark: View): Option<seq<Byte>>
    requires 1 <= version <= 10
  {
    var mask := Xor(ReadFormat(dark), FORMAT_MASK) / 1024;
    if mask >= 8 then None
    else
      var codewords := ReadCodewords(version, ReadDataBits(FreeOrder(version), mask, dark));
      if codewords.None? then None else ParseMessage(Unpack(codewords.value), CountBits(version))
  }

  // --- The round trip -----------------------------------------------------------------

  /** The view shows the symbol with the given final codewords and mask. */
  ghost predicate ShowsSymbol(dark: View, version: nat, final: seq<Byte>, mask: nat)
    requires 1 <= version <= 10 && mask < 8
  {
    forall r: nat, c: nat | r < SizeOf(version) && c < SizeOf(version) ::
      dark(r, c) == (CandidateModule(version, final, mask, r, c) % 2 == 1)
  }

  lemma FormatPositions(size: nat, i: nat)
    requires size >= 21 && i < 15
    ensures var p := FormatPos(i);
            p.row < size && p.col < size && FormatIndex(size, p.row, p.col) == i && !(p.row == size - 8 && p.col == 8)
    ensures var p := FormatPosSecond(size, i);
            p.row < size && p.col < size && FormatIndex(size, p.row, p.col) == i && !(p.row == size - 8 && p.col == 8)
  {}

  /** Each copy of the format information shows the format bits; the two copies agree. */
  lemma FormatReadsBits(version: nat, dark: View, final: seq<Byte>, mask: nat)
    requires 1 <= version <= 10 && mask < 8 && ShowsSymbol(dark, version, final, mask)
    ensures ReadFormat(dark) == FormatBits(mask)
    ensures ReadFormatSecond(SizeOf(version), dark) == FormatBits(mask)
  {
    var v := FormatBits(mask);
    hide FormatBits, BitAt, PlacedModule, MaskedModule, ToBits, FromBits, FormatPos, FormatPosSecond, FormatIndex;
    var first := seq(15, k requires 0 <= k < 15 => var p := FormatPos(14 - k); dark(p.row, p.col));
    var second := seq(15, k requires 0 <= k < 15 => var p := FormatPosSecond(SizeOf(version), 14 - k); dark(p.row, p.col));
    forall k | 0 <= k < 15
      ensures first[k] == second[k] == ToBits(v, 15)[k]
    {
      ToBitsAt(v, 15, k);
      FormatPositions(SizeOf(version), 14 - k);
    }
    assert first == second == ToBits(v, 15);
    FormatWordCarriesMask(mask);
    BinaryPowers();
    FromToBits(v, 15);
  }

  lemma BinaryPowers()
    ensures Pow2(15) == 0x8000
  {
    assert Pow2(5) == 32;
    assert Pow2(10) == 1024;
  }

  lemma {:induction false} IndexOfUnique(order: Order, i: nat)
    requires NoRepeats(order) && i < |order|
    ensures IndexOf(order, order[i]) == i
  {
    if i > 0 {
      assert order[1..][i - 1] == order[i];
      IndexOfUnique(order[1..], i - 1);
    }
  }

  /** The k-th free module is off the format strips and holds bit k. */
  lemma FreeModuleValue(version: nat, final: seq<Byte>, k: nat)
    requires 1 <= version <= 10 && k < |FreeOrder(version)|
    ensures var p := FreeOrder(version)[k];
            && p.row < SizeOf(version) && p.col < SizeOf(version)
            && !OnFormatBits(SizeOf(version), p.row, p.col)
            && PlacedModule(version, final, p.row, p.col) == DataBit(final, k)
  {
    var order := FreeOrder(version);
    var p := order[k];
    assert p in order && p == Pos(p.row, p.col);
    FreeOrderMembers(version);
    hide TemplateAt, FreeOrder, OnFormatBits, NoRepeats, DataBit;
    IndexOfUnique(order, k);
    if OnFormatBits(SizeOf(version), p.row, p.col) {
      FormatBitsReserved(version, p.row, p.col);
    }
  }

  lemma DataReadsBit(version: nat, dark: View, final: seq<Byte>, mask: nat, k: nat)
    requires 1 <= version <= 10 && mask < 8 && ShowsSymbol(dark, version, final, mask)
    requires k < |FreeOrder(version)|
    ensures var p := FreeOrder(version)[k];
            dark(p.row, p.col) != Masked(mask, p.row, p.col) <==> DataBit(final, k) == 1
  {
    hide FreeOrder, Masked, FormatModule, OnFormatBits, PlacedModule, DataBit, SizeOf;
    FreeModuleValue(version, final, k);
    DataBitSmall(final, k);
    var p := FreeOrder(version)[k];
    assert dark(p.row, p.col) == (CandidateModule(version, final, mask, p.row, p.col) % 2 == 1);
  }

  lemma DataBitSmall(final: seq<Byte>, k: nat)
    ensures DataBit(final, k) < 2
  {
    hide Unpack;
  }

  /** Unmasking the free modules gives the placed bits back. */
  lemma DataReadsBits(version: nat, dark: View, final: seq<Byte>, mask: nat)
    requires 1 <= version <= 10 && mask < 8 && ShowsSymbol(dark, version, final, mask)
    ensures var bits := ReadDataBits(FreeOrder(version), mask, dark);
            forall k | 0 <= k < |bits| :: bits[k] == (DataBit(final, k) == 1)
  {
    hide TemplateAt, FreeOrder, Masked, DataBit, ShowsSymbol;
    forall k | 0 <= k < |FreeOrder(version)|
      ensures ReadDataBits(FreeOrder(version), mask, dark)[k] == (DataBit(final, k) == 1)
    {
      DataReadsBit(version, dark, final, mask, k);
    }
  }

  lemma BlocksBounded(blocks: seq<seq<Byte>>, lengths: seq<nat>, end: nat)
    requires Interleaving.Lengths(blocks) == lengths
    requires forall l: nat | l in lengths :: l <= end
    ensures forall b | 0 <= b < |blocks| :: |blocks[b]| <= end
  {
    forall b | 0 <= b < |blocks|
      ensures |blocks[b]| <= end
    {
      assert Lengths(blocks)[b] in lengths;
    }
  }

  lemma PrefixBits(front: seq<Byte>, final: seq<Byte>, bits: seq<bool>)
    requires front <= final && 8 * |front| <= |bits|
    requires forall k | 0 <= k < |bits| :: bits[k] == (DataBit(final, k) == 1)
    ensures bits[..8 * |front|] == Unpack(front)
  {
    forall k | 0 <= k < 8 * |front|
      ensures bits[k] == Unpack(front)[k]
    {
      DataBitPrefix(front, final, k);
    }
  }

  lemma DataBitPrefix(front: seq<Byte>, final: seq<Byte>, k: nat)
    requires front <= final && k < 8 * |front|
    ensures DataBit(final, k) == 1 <==> Unpack(front)[k]
  {
    var rest := final[|front|..];
    assert final == front + rest;
    hide Unpack;
    UnpackConcat(front, rest);
  }

  /** Data bits determine the data codewords: interleaving is undone, and no data bit is among those that do not fit. */
  lemma BitsGiveCodewords(version: nat, codewords: seq<Byte>, bits: seq<bool>)
    requires 1 <= version <= 10 && |codewords| == DataCodewords(version)
    requires |bits| == FreeModules(version)
    requires forall k | 0 <= k < |bits| :: bits[k] == (DataBit(FinalCodewords(version, codewords), k) == 1)
    ensures ReadCodewords(version, bits) == Some(codewords)
  {
    var lengths, end, n := VersionLengths(version), LongestBlock(version), DataCodewords(version);
    var blocks := DataBlocks(version, codewords);
    var columns := Columns(blocks, 0, end);
    var final := FinalCodewords(version, codewords);
    assert columns <= final;
    LengthsTotal(version);
    hide VersionLengths, LongestBlock, DataCodewords, FreeModules, Split, Columns, FinalCodewords, DataBit, Unpack, Pack;
    RoomForCodewords(version);
    FlattenSplit(codewords, lengths);
    BlocksBounded(blocks, lengths, end);
    DeinterleaveAll(blocks, end);
    ColumnsSizeTotal(lengths, end);
    PrefixBits(columns, final, bits);
    PackUnpack(columns);
  }

  /** Reading a drawn symbol gives the payload back, whatever mask it was drawn with. */
  lemma SymbolRoundTrip(bytes: seq<Byte>, version: nat, mask: nat, dark: View)
    requires 1 <= version <= 10 && Fits(|bytes|, version) && mask < 8
    requires ShowsSymbol(dark, version, FinalCodewords(version, PayloadCodewords(bytes, version)), mask)
    ensures ReadView(version, dark) == Some(bytes)
  {
    var codewords := PayloadCodewords(bytes, version);
    var final := FinalCodewords(version, codewords);
    hide PayloadCodewords, FinalCodewords, FreeOrder, FormatBits, ParseMessage, ReadFormat, ReadCodewords, ReadDataBits, Fits,
      Unpack, Xor, ShowsSymbol, DataBit;
    FormatReadsBits(version, dark, final, mask);
    FormatWordCarriesMask(mask);
    DataReadsBits(version, dark, final, mask);
    FreeCount(version);
    BitsGiveCodewords(version, codewords, ReadDataBits(FreeOrder(version), mask, dark));
    PayloadParses(bytes, version);
  }

  lemma FrontParses(bytes: seq<Byte>, countBits: nat, capacity: nat)
    requires countBits <= 16 && |bytes| < Pow2(countBits) && |bytes| < 0x1_0000_0000
    requires |Message(bytes, countBits)| <= capacity && capacity % 8 == 0
    ensures ParseMessage(Unpack(Codewords(Message(bytes, countBits), capacity)), countBits) == Some(bytes)
  {
    hide *;
    CodewordsCarryBits(Message(bytes, countBits), capacity);
    ParseRoundTrip(bytes, countBits, Unpack(Codewords(Message(bytes, countBits), capacity)));
  }

  lemma PayloadParses(bytes: seq<Byte>, version: nat)
    requires 1 <= version <= 10 && Fits(|bytes|, version)
    ensures ParseMessage(Unpack(PayloadCodewords(bytes, version)), CountBits(version)) == Some(bytes)
  {
    CountFits(|bytes|, version);
    MessageFits(|bytes|, version, DataCodewords(version));
    hide ParseMessage, Unpack, Pow2, Codewords, CountBits, DataCodewords, ToBits;
    FrontParses(bytes, CountBits(version), 8 * DataCodewords(version));
  }

  /** A payload that fits has a count that fits its count field. */
  lemma CountFits(n: nat, version: nat)
    requires 1 <= version <= 10 && Fits(n, version)
    ensures n < Pow2(CountBits(version)) && n < 0x1_0000_0000 && CountBits(version) <= 16
  {
    assert Pow2(5) == 32;
    assert Pow2(8) == 256;
    assert Pow2(9) == 512;
    assert Pow2(16) > 256 by { assert Pow2(12) >= 256; }
  }
}
