/** The pieces of a symbol as ISO/IEC 18004 draws and lists them: patterns, masks, blocks, data codewords and version information. */
module StandardSymbols {
  import opened Bitwise
  import opened BinaryPolynomials
  import opened Bch
  import opened BitStream
  import opened BitBuffers
  import opened Payload
  import opened Template
  import opened Placement
  import opened Masking
  import opened Capacity
  import opened Symbol
  import opened QrCode

  // --- Pictures ------------------------------------------------------------------------

  const FINDER: seq<string> := [
    ".........",
    ".#######.",
    ".#.....#.",
    ".#.###.#.",
    ".#.###.#.",
    ".#.###.#.",
    ".#.....#.",
    ".#######.",
    "........."
  ]

  const ALIGNMENT: seq<string> := [
    "#####",
    "#...#",
    "#.#.#",
    "#...#",
    "#####"
  ]

  /** The finder pattern with its separator and the alignment pattern, module by module. */
  lemma PatternPictures(r: nat, c: nat)
    ensures r < 9 && c < 9 ==> FinderModule(r - 1, c - 1) == Pattern(FINDER[r][c] == '#')
    ensures r < 5 && c < 5 ==> AlignmentModule(r - 2, c - 2) == Pattern(ALIGNMENT[r][c] == '#')
  {
  }

  /** The masks, each as the tile that it repeats. */
  const TILES: seq<seq<string>> := [
    ["#.",
     ".#"],
    ["#",
     "."],
    ["#.."],
    ["#..",
     "..#",
     ".#."],
    ["###...",
     "###...",
     "...###",
     "...###"],
    ["######",
     "#.....",
     "#..#..",
     "#.#.#.",
     "#..#..",
     "#....."],
    ["######",
     "###...",
     "##.##.",
     "#.#.#.",
     "#.##.#",
     "#...##"],
    ["#.#.#.",
     "...###",
     "#...##",
     ".#.#.#",
     "###...",
     ".###.."]
  ]

  lemma Halves(x: nat, q: nat, t: nat)
    requires x == 2 * q + t && t < 2
    ensures x / 2 == q && x % 2 == t
  {
  }

  lemma Thirds(x: nat, q: nat, t: nat)
    requires x == 3 * q + t && t < 3
    ensures x / 3 == q && x % 3 == t
  {
  }

  /** Halves and thirds repeat after four and after six. */
  lemma Remainders(x: nat)
    ensures x % 2 == x % 6 % 2 && x % 3 == x % 6 % 3
    ensures x / 2 % 2 == x % 4 / 2 && x / 3 % 2 == x % 6 / 3
  {
    var q, t, q', t' := x / 6, x % 6, x / 4, x % 4;
    Halves(x, 3 * q + t / 2, t % 2);
    Thirds(x, 2 * q + t / 3, t % 3);
    Halves(x / 3, q, t / 3);
    Halves(x, 2 * q' + t' / 2, t' % 2);
    Halves(x / 2, q', t' / 2);
  }

  lemma SumRepeats(r: nat, c: nat)
    ensures (r + c) % 2 == (r % 6 + c % 6) % 2 && (r + c) % 3 == (r % 6 + c % 6) % 3
    ensures (r + c) % 2 == (r % 2 + c % 2) % 2 && (r + c) % 3 == (r % 3 + c % 3) % 3
  {
    var t := r % 6 + c % 6;
    Halves(r + c, 3 * (r / 6 + c / 6) + t / 2, t % 2);
    Thirds(r + c, 2 * (r / 6 + c / 6) + t / 3, t % 3);
    var x, y := r % 2 + c % 2, r % 3 + c % 3;
    Halves(r + c, r / 2 + c / 2 + x / 2, x % 2);
    Thirds(r + c, r / 3 + c / 3 + y / 3, y % 3);
  }

  lemma ProductExpands(a: nat, i: nat, b: nat, j: nat)
    ensures (6 * a + i) * (6 * b + j) == 6 * (a * (6 * b + j) + i * b) + i * j
  {
  }

  lemma ProductsRepeat(r: nat, c: nat)
    ensures r * c % 2 == (r % 6) * (c % 6) % 2 && r * c % 3 == (r % 6) * (c % 6) % 3
  {
    var a, i, b, j := r / 6, r % 6, c / 6, c % 6;
    ProductExpands(a, i, b, j);
    var k, p := a * c + i * b, i * j;
    assert r * c == 6 * k + p;
    Halves(r * c, 3 * k + p / 2, p % 2);
    Thirds(r * c, 2 * k + p / 3, p % 3);
  }

  /** What the conditions of the last three masks come to within one tile. */
  lemma ProductsInTile(i: nat, j: nat)
    requires i < 6 && j < 6
    ensures i * j % 2 == (if i % 2 == 1 && j % 2 == 1 then 1 else 0)
    ensures i * j % 3 == (if i % 3 == 0 || j % 3 == 0 then 0 else if i % 3 == j % 3 then 1 else 2)
  {
    assert i == 0 || i == 1 || i == 2 || i == 3 || i == 4 || i == 5;
  }

  /** Whether the tile of a mask, repeated in both directions, is dark at a module. */
  predicate TileAt(mask: nat, r: nat, c: nat)
    requires mask < 8
  {
    var tile := TILES[mask];
    var row := tile[r % |tile|];
    row[c % |row|] == '#'
  }

  lemma SumMasks(mask: nat, r: nat, c: nat)
    requires mask < 4
    ensures Masked(mask, r, c) <==> TileAt(mask, r, c)
  {
    SumRepeats(r, c);
    assert mask == 0 || mask == 1 || mask == 2 || mask == 3;
  }

  lemma BlockMask(r: nat, c: nat)
    ensures Masked(4, r, c) <==> TileAt(4, r, c)
  {
    Remainders(r);
    Remainders(c);
    SumRepeats(r / 2, c / 3);
    var i, j := r % 4, c % 6;
    assert Masked(4, r, c) <==> i / 2 == j / 3;
  }

  lemma ProductMasks(mask: nat, r: nat, c: nat)
    requires 5 <= mask < 8
    ensures Masked(mask, r, c) <==> TileAt(mask, r, c)
  {
    hide TILES;
    var i, j := r % 6, c % 6;
    TileSizes(mask, i);
    ProductsRepeat(r, c);
    SumRepeats(r, c);
    ProductsInTile(i, j);
    TileOfProducts(mask, i, j);
  }

  lemma TileSizes(mask: nat, i: nat)
    requires 5 <= mask < 8 && i < 6
    ensures |TILES[mask]| == 6 && |TILES[mask][i]| == 6
  {
  }

  lemma TileOfProducts(mask: nat, i: nat, j: nat)
    requires 5 <= mask < 8 && i < 6 && j < 6
    ensures var x := if i % 2 == 1 && j % 2 == 1 then 1 else 0;
            var y := if i % 3 == 0 || j % 3 == 0 then 0 else if i % 3 == j % 3 then 1 else 2;
            TILES[mask][i][j] == '#' <==>
              if mask == 5 then x + y == 0 else if mask == 6 then (x + y) % 2 == 0 else ((i + j) % 2 + y) % 2 == 0
  {
    assert i == 0 || i == 1 || i == 2 || i == 3 || i == 4 || i == 5;
    assert j == 0 || j == 1 || j == 2 || j == 3 || j == 4 || j == 5;
  }

  /** Every module is flipped exactly if the tile of the mask is dark there. */
  lemma MaskPictures(mask: nat, r: nat, c: nat)
    requires mask < 8
    ensures Masked(mask, r, c) <==> TileAt(mask, r, c)
  {
    if mask < 4 {
      SumMasks(mask, r, c);
    } else if mask == 4 {
      BlockMask(r, c);
    } else {
      ProductMasks(mask, r, c);
    }
  }

  // --- Blocks --------------------------------------------------------------------------

  /** Blocks of one length, as table 9 of the standard lists them: how many, their codewords, the data codewords among these, and how many errors can be corrected. */
  datatype Listed = Listed(count: nat, codewords: nat, data: nat, errors: nat)

  /** Level M, versions 1 to 10. */
  const BLOCKS: seq<seq<Listed>> := [
    [Listed(1, 26, 16, 4)],
    [Listed(1, 44, 28, 8)],
    [Listed(1, 70, 44, 13)],
    [Listed(2, 50, 32, 9)],
    [Listed(2, 67, 43, 12)],
    [Listed(4, 43, 27, 8)],
    [Listed(4, 49, 31, 9)],
    [Listed(2, 60, 38, 11), Listed(2, 61, 39, 11)],
    [Listed(3, 58, 36, 11), Listed(2, 59, 37, 11)],
    [Listed(4, 69, 43, 13), Listed(1, 70, 44, 13)]
  ]

  /** The data blocks and the check symbols of each are those of the standard; except in version 1, which keeps two check symbols back against misreading, all of them go into correction. */
  lemma BlocksAreStandard(version: nat)
    requires 1 <= version <= 10
    ensures var blocks := BLOCKS[version - 1];
            && |BlockSpec(version)| == |blocks|
            && forall g | 0 <= g < |blocks| ::
                 && BlockSpec(version)[g] == (blocks[g].count, blocks[g].data)
                 && EcPerBlock(version) == blocks[g].codewords - blocks[g].data == 2 * blocks[g].errors + if version == 1 then 2 else 0
  {
  }

  lemma {:induction false} SpecTotal(spec: seq<(nat, nat)>)
    ensures |spec| == 1 ==> |BlockLengths(spec)| == spec[0].0 && forall b | 0 <= b < spec[0].0 :: BlockLengths(spec)[b] == spec[0].1
    ensures |spec| == 2 ==>
      && |BlockLengths(spec)| == spec[0].0 + spec[1].0
      && forall b | 0 <= b < spec[0].0 + spec[1].0 :: BlockLengths(spec)[b] == if b < spec[0].0 then spec[0].1 else spec[1].1
  {
    if |spec| == 1 {
      assert spec[1..] == [];
    } else if |spec| == 2 {
      assert spec[1..][1..] == [];
      assert BlockLengths(spec[1..]) == Repeat(spec[1].0, spec[1].1) + [];
    }
  }

  /** The data codewords are dealt out as evenly as can be, shorter blocks first. */
  lemma BlocksAreEven(version: nat, b: nat)
    requires 1 <= version <= 10 && b < |VersionLengths(version)|
    ensures VersionLengths(version)[b] == (DataCodewords(version) + b) / |VersionLengths(version)|
  {
    SpecTotal(BlockSpec(version));
  }

  // --- Data codewords ------------------------------------------------------------------

  /** The count and the bytes of a payload, as octets. */
  function Counted(bytes: seq<Byte>, version: nat): (octets: seq<Byte>)
    requires |bytes| < 65536
    ensures octets != []
  {
    (if version < 10 then [|bytes| % 256] else [|bytes| / 256, |bytes| % 256]) + bytes
  }

  /** Octets moved on by four bits, with four bits before them and four zeros behind. */
  function Moved(before: nat, octets: seq<Byte>): (moved: seq<Byte>)
    requires before < 16
    ensures |moved| == |octets| + 1
    decreases |octets|
  {
    if octets == [] then [16 * before] else [16 * before + octets[0] / 16] + Moved(octets[0] % 16, octets[1..])
  }

  lemma {:induction false} MovedAt(before: nat, octets: seq<Byte>, i: nat)
    requires before < 16 && i <= |octets|
    ensures Moved(before, octets)[i] == 16 * (if i == 0 then before else octets[i - 1] % 16) + if i < |octets| then octets[i] / 16 else 0
    decreases |octets|
  {
    if i > 0 {
      MovedAt(octets[0] % 16, octets[1..], i - 1);
    }
  }

  /** The bits of a number are the bits of its high part and then those of its low part. */
  lemma {:induction false} BitsOfParts(high: nat, low: nat, a: nat, b: nat)
    requires low < Pow2(b) && a + b <= 32 && high * Pow2(b) + low < 0x1_0000_0000
    ensures ToBits(high * Pow2(b) + low, a + b) == ToBits(high, a) + ToBits(low, b)
    decreases b
  {
    hide ToBits;
    if b == 0 {
      NoBits(low);
      assert ToBits(high, a) + [] == ToBits(high, a);
    } else {
      Pow2Step(b - 1);
      HalfOfParts(high, low, Pow2(b - 1));
      var n := high * Pow2(b) + low;
      ToBitsHalf(n, a + b);
      ToBitsHalf(low, b);
      BitsOfParts(high, low / 2, a, b - 1);
      assert ToBits(high, a) + (ToBits(low / 2, b - 1) + [low % 2 == 1]) == ToBits(high, a) + ToBits(low / 2, b - 1) + [low % 2 == 1];
    }
  }

  lemma NoBits(low: nat)
    ensures ToBits(low, 0) == []
    ensures low < Pow2(0) ==> low == 0
  {
  }

  lemma HalfOfParts(high: nat, low: nat, p: nat)
    ensures (high * (2 * p) + low) / 2 == high * p + low / 2 && (high * (2 * p) + low) % 2 == low % 2
    ensures high * p + low / 2 <= high * (2 * p) + low
  {
    assert high * (2 * p) == 2 * (high * p);
  }

  lemma EightBits(high: nat, low: nat)
    requires high < 16 && low < 16
    ensures ToBits(16 * high + low, 8) == ToBits(high, 4) + ToBits(low, 4)
  {
    SmallPowersOfTwo();
    hide *;
    BitsOfParts(high, low, 4, 4);
  }

  lemma SixteenBits(high: nat, low: nat)
    requires high < 256 && low < 256
    ensures ToBits(256 * high + low, 16) == ToBits(high, 8) + ToBits(low, 8)
  {
    SmallPowersOfTwo();
    hide *;
    BitsOfParts(high, low, 8, 8);
  }

  lemma SmallPowersOfTwo()
    ensures Pow2(4) == 16 && Pow2(8) == 256
  {
  }

  lemma OctetBits(before: nat, octet: Byte)
    requires before < 16
    ensures ToBits(16 * before + octet / 16, 8) == ToBits(before, 4) + ToBits(octet / 16, 4)
    ensures ToBits(octet, 8) == ToBits(octet / 16, 4) + ToBits(octet % 16, 4)
    ensures ToBits(16 * before, 8) == ToBits(before, 4) + Falses(4)
  {
    hide *;
    EightBits(before, octet / 16);
    EightBits(octet / 16, octet % 16);
    EightBits(before, 0);
    ZeroBits();
  }

  lemma ZeroBits()
    ensures ToBits(0, 4) == Falses(4)
  {
    hide BitAt;
    ToBitsAt(0, 4, 0);
    ToBitsAt(0, 4, 1);
    ToBitsAt(0, 4, 2);
    ToBitsAt(0, 4, 3);
    ZeroBit(0);
    ZeroBit(1);
    ZeroBit(2);
    ZeroBit(3);
  }

  lemma {:induction false} ZeroBit(i: nat)
    requires i < 31
    ensures !BitAt(0, i)
  {
    hide BitAt;
    BitAtHalf(0, if i > 0 then i - 1 else 0);
    if i > 0 {
      ZeroBit(i - 1);
    }
  }

  lemma UnpackCons(octet: Byte, rest: seq<Byte>)
    ensures Unpack([octet] + rest) == ToBits(octet, 8) + Unpack(rest)
  {
    hide ToBits;
    assert ([octet] + rest)[1..] == rest;
  }

  lemma MovedCons(before: nat, octet: Byte, rest: seq<Byte>)
    requires before < 16
    ensures Moved(before, [octet] + rest) == [16 * before + octet / 16] + Moved(octet % 16, rest)
    ensures Moved(before, []) == [16 * before] + []
  {
    assert ([octet] + rest)[1..] == rest;
  }

  lemma {:induction false} UnpackMoved(before: nat, octets: seq<Byte>)
    requires before < 16
    ensures Unpack(Moved(before, octets)) == ToBits(before, 4) + Unpack(octets) + Falses(4)
    decreases |octets|
  {
    hide *;
    UnpackEmpty();
    if octets == [] {
      OctetBits(before, 0);
      MovedCons(before, 0, []);
      UnpackCons(16 * before, []);
    } else {
      var octet, rest := octets[0], octets[1..];
      assert octets == [octet] + rest;
      OctetBits(before, octet);
      MovedCons(before, octet, rest);
      UnpackMoved(octet % 16, rest);
      UnpackCons(16 * before + octet / 16, Moved(octet % 16, rest));
      UnpackCons(octet, rest);
    }
  }

  lemma CountInOne(bytes: seq<Byte>)
    requires |bytes| < 256
    ensures Unpack([|bytes|] + bytes) == ToBits(|bytes|, 8) + Unpack(bytes)
  {
    hide *;
    UnpackCons(|bytes|, bytes);
  }

  lemma CountInTwo(high: Byte, low: Byte, bytes: seq<Byte>)
    ensures Unpack([high, low] + bytes) == ToBits(256 * high + low, 16) + Unpack(bytes)
  {
    hide *;
    var rest := [low] + bytes;
    UnpackCons(high, rest);
    UnpackCons(low, bytes);
    SixteenBits(high, low);
    assert [high, low] + bytes == [high] + rest;
  }

  lemma CountedIs(bytes: seq<Byte>, version: nat)
    requires |bytes| < 65536 && (version < 10 ==> |bytes| < 256)
    ensures version < 10 ==> Counted(bytes, version) == [|bytes|] + bytes && CountBits(version) == 8
    ensures version >= 10 ==> Counted(bytes, version) == [|bytes| / 256, |bytes| % 256] + bytes && CountBits(version) == 16
  {
  }

  lemma CountedBits(bytes: seq<Byte>, version: nat)
    requires |bytes| < 65536 && (version < 10 ==> |bytes| < 256)
    ensures Unpack(Counted(bytes, version)) == ToBits(|bytes|, CountBits(version)) + Unpack(bytes)
  {
    hide *;
    CountedIs(bytes, version);
    if version < 10 {
      CountInOne(bytes);
    } else {
      CountInTwo(|bytes| / 256, |bytes| % 256, bytes);
    }
  }

  /** A payload that fits leaves room for the whole terminator. */
  lemma RoomForTerminator(n: nat, version: nat)
    requires 1 <= version <= 10 && Fits(n, version)
    ensures n <= 213 && (version < 10 ==> n < 256)
    ensures var used := 4 + CountBits(version) + 8 * n; used <= 8 * DataCodewords(version) && PaddingBits(used, 8 * DataCodewords(version)) == 4
  {
  }

  /** Bits that end after a terminator of four make the codewords they pack into, followed by pads. */
  lemma PackedFront(bits: seq<bool>, capacity: nat, front: seq<Byte>)
    requires |bits| <= capacity && capacity % 8 == 0 && PaddingBits(|bits|, capacity) == 4 && Unpack(front) == bits + Falses(4)
    ensures 8 * |front| <= capacity && Codewords(bits, capacity) == front + Pads(capacity / 8 - |front|)
  {
    hide Pack, Unpack, Pads, PaddingBits;
    PackUnpack(front);
    assert |Unpack(front)| == 8 * |front|;
  }

  /** The front of the data codewords is the payload moved on by the mode indicator. */
  lemma FrontIsMoved(bytes: seq<Byte>, version: nat)
    requires 1 <= version <= 10 && Fits(|bytes|, version)
    ensures |bytes| < 65536
    ensures var front := Moved(4, Counted(bytes, version));
            |front| <= DataCodewords(version) && PayloadCodewords(bytes, version) == front + Pads(DataCodewords(version) - |front|)
  {
    hide ToBits, Unpack, DataCodewords, Moved, Counted, PaddingBits, Codewords, Pads, CountBits;
    RoomForTerminator(|bytes|, version);
    MessageFits(|bytes|, version, DataCodewords(version));
    var octets := Counted(bytes, version);
    CountedBits(bytes, version);
    UnpackMoved(4, octets);
    var message := Message(bytes, CountBits(version));
    assert message == ToBits(4, 4) + Unpack(octets);
    PackedFront(message, 8 * DataCodewords(version), Moved(4, octets));
  }

  /** The data codewords, octet by octet: the mode indicator 4, the count in one octet or, in version 10, two, and the bytes, all moved on by four bits; then 236 and 17 in turn. */
  lemma DataCodewordsExactly(bytes: seq<Byte>, version: nat, i: nat)
    requires 1 <= version <= 10 && Fits(|bytes|, version) && i < DataCodewords(version)
    ensures |bytes| <= 213 && |PayloadCodewords(bytes, version)| == DataCodewords(version)
    ensures var octets := (if version < 10 then [|bytes|] else [0, |bytes|]) + bytes;
            var n := |octets|;
            PayloadCodewords(bytes, version)[i] ==
              if i == 0 then 64 + octets[0] / 16
              else if i < n then 16 * (octets[i - 1] % 16) + octets[i] / 16
              else if i == n then 16 * (octets[n - 1] % 16)
              else if (i - n) % 2 == 1 then 236 else 17
  {
    hide Moved, PayloadCodewords, DataCodewords;
    RoomForTerminator(|bytes|, version);
    FrontIsMoved(bytes, version);
    var octets := Counted(bytes, version);
    assert |bytes| % 256 == |bytes| && |bytes| / 256 == 0;
    assert octets == (if version < 10 then [|bytes|] else [0, |bytes|]) + bytes;
    if i <= |octets| {
      MovedAt(4, octets, i);
    }
  }

  // --- Version information -------------------------------------------------------------

  /** Where bit i of the version information is read, in the two blocks beside the finder patterns. */
  function VersionPos(version: nat, i: nat): Pos
  {
    Pos(i / 3, 4 * version + 6 + i % 3)
  }

  function Mirrored(p: Pos): Pos {
    Pos(p.col, p.row)
  }

  function ReadVersion(version: nat, mirrored: bool, dark: View): nat {
    FromBits(seq(18, k requires 0 <= k < 18 =>
      var p := if mirrored then Mirrored(VersionPos(version, 17 - k)) else VersionPos(version, 17 - k); dark(p.row, p.col)))
  }

  lemma VersionModuleAt(version: nat, i: nat, mirrored: bool)
    requires 7 <= version <= 10 && i < 18
    ensures var p := if mirrored then Mirrored(VersionPos(version, i)) else VersionPos(version, i);
            && p.row < SizeOf(version) && p.col < SizeOf(version) && !OnFormatBits(SizeOf(version), p.row, p.col)
            && TemplateAt(version, p.row, p.col) == Pattern(BitAt(VersionBits(version), i))
  {
    hide VersionBits, BitAt, FinderModule, AlignmentModule;
    var p := if mirrored then Mirrored(VersionPos(version, i)) else VersionPos(version, i);
    VersionIndexInverse(version, p.row, p.col, i);
  }

  lemma VersionReadsBit(version: nat, dark: View, final: seq<Byte>, mask: nat, i: nat, mirrored: bool)
    requires 7 <= version <= 10 && mask < 8 && i < 18 && ShowsSymbol(dark, version, final, mask)
    ensures var p := if mirrored then Mirrored(VersionPos(version, i)) else VersionPos(version, i);
            dark(p.row, p.col) == BitAt(VersionBits(version), i)
  {
    hide VersionBits, BitAt, TemplateAt, OnFormatBits, FormatModule, Masked, FreeOrder, DataBit, SizeOf;
    VersionModuleAt(version, i, mirrored);
    var p := if mirrored then Mirrored(VersionPos(version, i)) else VersionPos(version, i);
    assert dark(p.row, p.col) == (CandidateModule(version, final, mask, p.row, p.col) % 2 == 1);
  }

  /** From version 7 on, both blocks of the version information read back as the version word. */
  lemma VersionReadsBits(version: nat, dark: View, final: seq<Byte>, mask: nat, mirrored: bool)
    requires 7 <= version <= 10 && mask < 8 && ShowsSymbol(dark, version, final, mask)
    ensures ReadVersion(version, mirrored, dark) == VersionBits(version) && ReadVersion(version, mirrored, dark) / 4096 == version
  {
    hide VersionBits, BitAt, ToBits, FromBits, ShowsSymbol, VersionPos;
    var word := VersionBits(version);
    var read := seq(18, k requires 0 <= k < 18 =>
      var p := if mirrored then Mirrored(VersionPos(version, 17 - k)) else VersionPos(version, 17 - k); dark(p.row, p.col));
    forall k | 0 <= k < 18
      ensures read[k] == ToBits(word, 18)[k]
    {
      ToBitsAt(word, 18, k);
      VersionReadsBit(version, dark, final, mask, 17 - k, mirrored);
    }
    assert read == ToBits(word, 18);
    VersionBitsCarryVersion(version);
    Pow2Values();
    FromToBits(word, 18);
  }

  // --- The picture ---------------------------------------------------------------------

  /** The picture is a square with the symbol in the middle of a light margin. */
  lemma QuietZoneIsLight(rows: Rows, quiet: nat, row: nat, col: nat)
    requires row < |rows| + 2 * quiet && col < |rows| + 2 * quiet
    ensures |Picture(rows, quiet)| == |rows| + 2 * quiet && |Picture(rows, quiet)[row]| == |rows| + 2 * quiet
    ensures row < quiet || col < quiet || row >= |rows| + quiet || col >= |rows| + quiet ==> !Picture(rows, quiet)[row][col]
    ensures row < |rows| && col < |rows| ==> (Picture(rows, quiet)[row + quiet][col + quiet] <==> rows[row][col] in {1, 3})
  {
  }
}
