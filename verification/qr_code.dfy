/** The encoder: payload, blocks, template, mask choice and quiet zone. */
module QrCode {
  import opened Wrappers
  import opened Bitwise
  import opened BitStream
  import opened BitBuffers
  import opened Payload
  import opened Interleaving
  import opened GF256
  import opened ReedSolomon
  import opened ReedSolomonEncoder
  import opened Template
  import opened Placement
  import opened Masking
  import opened Capacity
  import opened Symbol

  datatype PayloadTooLong = PayloadTooLong(bytes: nat)

  // --- Pictures -----------------------------------------------------------------------

  type Rows = rows: seq<seq<Module>> | forall r | 0 <= r < |rows| :: |rows[r]| == |rows| witness []

  function RowsOf(m: array2<Module>): (rows: Rows)
    requires m.Length0 == m.Length1
    reads m
    ensures |rows| == m.Length0
    ensures forall r, c | 0 <= r < m.Length0 && 0 <= c < m.Length1 :: rows[r][c] == m[r, c]
  {
    seq(m.Length0, r requires 0 <= r < m.Length0 reads m => seq(m.Length1, c requires 0 <= c < m.Length1 reads m => m[r, c]))
  }

  /** The modules of the symbol drawn with a given mask. */
  function CandidateRows(version: nat, final: seq<Byte>, mask: nat): (rows: Rows)
    requires 1 <= version <= 10 && mask < 8
  {
    seq(SizeOf(version), r requires 0 <= r < SizeOf(version) =>
      seq(SizeOf(version), c requires 0 <= c < SizeOf(version) => CandidateModule(version, final, mask, r, c)))
  }

  /** Whether a module of the finished picture is dark; the quiet zone is light. */
  function PictureModule(rows: Rows, quiet: nat, row: nat, col: nat): bool {
    quiet <= row < |rows| + quiet && quiet <= col < |rows| + quiet && rows[row - quiet][col - quiet] % 2 == 1
  }

  function Picture(rows: Rows, quiet: nat): (picture: seq<seq<bool>>)
    ensures |picture| == |rows| + 2 * quiet
    ensures forall row | 0 <= row < |picture| :: |picture[row]| == |picture|
    ensures forall row, col | 0 <= row < |picture| && 0 <= col < |picture| :: picture[row][col] == PictureModule(rows, quiet, row, col)
  {
    seq(|rows| + 2 * quiet, row requires 0 <= row < |rows| + 2 * quiet =>
      seq(|rows| + 2 * quiet, col requires 0 <= col < |rows| + 2 * quiet => PictureModule(rows, quiet, row, col)))
  }

  /** The modules inside the quiet zone. */
  function PictureView(picture: seq<seq<bool>>, quiet: nat): View {
    (r: nat, c: nat) => r + quiet < |picture| && c + quiet < |picture[r + quiet]| && picture[r + quiet][c + quiet]
  }

  /** Reads a picture with a quiet zone of known width; the version follows from the picture's size. */
  function ReadSymbol(picture: seq<seq<bool>>, quiet: nat): Option<seq<Byte>> {
    if |picture| < 2 * quiet then None
    else
      var size := |picture| - 2 * quiet;
      if size < 21 || size > 57 || (size - 17) % 4 != 0 then None
      else
        ReadView((size - 17) / 4, PictureView(picture, quiet))
  }

  // --- Codewords ----------------------------------------------------------------------

  lemma {:induction false} UnpackSnoc(bytes: seq<Byte>, b: Byte)
    ensures Unpack(bytes + [b]) == Unpack(bytes) + ToBits(b, 8)
  {
    UnpackConcat(bytes, [b]);
    assert Unpack([b]) == ToBits(b, 8) + Unpack([]);
  }

  method WritePayload(bytes: seq<Byte>, version: nat) returns (buffer: BitBuffer)
    ensures fresh(buffer) && buffer.bits == Message(bytes, CountBits(version))
  {
    hide ToBits, Unpack;
    buffer := new BitBuffer();
    buffer.Push(BYTE_MODE, 4);
    buffer.Push(|bytes|, if version < 10 then 8 else 16);
    ghost var head := buffer.bits;
    assert head == ToBits(BYTE_MODE, 4) + ToBits(|bytes|, CountBits(version));
    UnpackEmpty();
    for k := 0 to |bytes|
      invariant buffer.bits == head + Unpack(bytes[..k])
    {
      UnpackSnoc(bytes[..k], bytes[k]);
      assert bytes[..k + 1] == bytes[..k] + [bytes[k]];
      buffer.Push(bytes[k], 8);
    }
    assert bytes[..|bytes|] == bytes;
  }

  lemma UnpackEmpty()
    ensures Unpack([]) == []
  {}

  /** Data codewords of a payload that fits. */
  method DataCodewordsOf(bytes: seq<Byte>, version: nat) returns (codewords: array<Byte>)
    requires 1 <= version <= 10 && Fits(|bytes|, version)
    ensures fresh(codewords) && codewords[..] == PayloadCodewords(bytes, version)
  {
    MessageFits(|bytes|, version, DataCodewords(version));
    hide Codewords, DataCodewords, CountBits, ToBits;
    var buffer := WritePayload(bytes, version);
    var result := buffer.ToCodewords(8 * DataCodewords(version));
    codewords := result.value;
  }

  /** Blocks cut so far from the front of the codewords, their check blocks, and the lengths used up and left over. */
  ghost predicate BlocksCut(codewords: seq<Byte>, n: nat, done: seq<nat>, left: seq<nat>,
                            blocks: seq<seq<Byte>>, checks: seq<seq<Byte>>, offset: nat)
  {
    && n > 0 && Total(done + left) == |codewords| && offset == Total(done) <= |codewords|
    && blocks == Split(codewords[..offset], done)
    && checks == CheckBlocks(blocks, n)
  }

  lemma CutOne(codewords: seq<Byte>, n: nat, done: seq<nat>, left: seq<nat>, blocks: seq<seq<Byte>>, checks: seq<seq<Byte>>,
               offset: nat)
    requires left != [] && BlocksCut(codewords, n, done, left, blocks, checks, offset)
    ensures offset + left[0] <= |codewords|
    ensures var block := codewords[offset..offset + left[0]];
            BlocksCut(codewords, n, done + [left[0]], left[1..], blocks + [block], checks + [Check(block, n)], offset + left[0])
  {
    assert done + left == (done + [left[0]]) + left[1..];
    TotalConcat(done, left);
    TotalConcat(done + [left[0]], left[1..]);
    TotalConcat(done, [left[0]]);
    assert [left[0]][1..] == [];
    var block := codewords[offset..offset + left[0]];
    assert codewords[..offset + left[0]] == codewords[..offset] + block;
    SplitSnoc(codewords[..offset], done, block);
    hide Split, Total, Check;
    assert CheckBlocks(blocks + [block], n) == CheckBlocks(blocks, n) + [Check(block, n)];
  }

  /** Cuts one block and computes its error correction. */
  method CutBlock(tables: Tables, codewords: array<Byte>, n: nat, length: nat, offset: nat) returns (block: seq<Byte>, check: seq<Byte>)
    requires tables.Valid() && 0 < n <= 512 && offset + length <= codewords.Length
    ensures block == codewords[offset..offset + length] && check == Check(block, n)
  {
    hide *;
    var slice := new Byte[length](k requires 0 <= k < length reads codewords => codewords[offset + k]);
    assert slice[..] == codewords[offset..offset + length];
    var result := ErrorCorrection(tables, slice, n);
    block, check := slice[..], result.value[..];
  }

  /** Cuts a group of blocks of equal length. */
  method CutGroup(tables: Tables, codewords: array<Byte>, n: nat, count: nat, length: nat, ghost done: seq<nat>, ghost left: seq<nat>,
                  blocks: seq<seq<Byte>>, checks: seq<seq<Byte>>, offset: nat)
    returns (blocks': seq<seq<Byte>>, checks': seq<seq<Byte>>, offset': nat)
    requires tables.Valid() && n <= 512
    requires BlocksCut(codewords[..], n, done, Repeat(count, length) + left, blocks, checks, offset)
    ensures BlocksCut(codewords[..], n, done + Repeat(count, length), left, blocks', checks', offset')
  {
    hide BlocksCut;
    blocks', checks', offset' := blocks, checks, offset;
    ghost var all := codewords[..];
    assert done + Repeat(0, length) == done;
    for k := 0 to count
      invariant offset' >= 0
      invariant BlocksCut(all, n, done + Repeat(k, length), Repeat(count - k, length) + left, blocks', checks', offset')
    {
      ghost var rest := Repeat(count - k, length) + left;
      assert rest[0] == length && rest[1..] == Repeat(count - k - 1, length) + left;
      assert (done + Repeat(k, length)) + [length] == done + Repeat(k + 1, length);
      CutOne(all, n, done + Repeat(k, length), rest, blocks', checks', offset');
      PositiveCheck(all, n, done + Repeat(k, length), rest, blocks', checks', offset');
      var block, check := CutBlock(tables, codewords, n, length, offset');
      blocks', checks', offset' := blocks' + [block], checks' + [check], offset' + length;
    }
    assert Repeat(0, length) + left == left;
  }

  lemma PositiveCheck(codewords: seq<Byte>, n: nat, done: seq<nat>, left: seq<nat>, blocks: seq<seq<Byte>>, checks: seq<seq<Byte>>,
                      offset: nat)
    requires BlocksCut(codewords, n, done, left, blocks, checks, offset)
    ensures n > 0
  {}

  /** Cuts the data codewords into the blocks of a version and computes the error correction of each. */
  method CutBlocks(tables: Tables, codewords: array<Byte>, version: nat) returns (blocks: seq<seq<Byte>>, checks: seq<seq<Byte>>)
    requires tables.Valid() && 1 <= version <= 10 && codewords.Length == DataCodewords(version)
    ensures blocks == DataBlocks(version, codewords[..]) && checks == CheckBlocks(blocks, EcPerBlock(version))
  {
    hide *;
    var spec, n := BlockSpec(version), EcPerBlock(version);
    NoneCut(codewords[..], n, version);
    blocks, checks := [], [];
    var offset := 0;
    ghost var done: seq<nat>, all := [], codewords[..];
    for g := 0 to |spec|
      invariant offset >= 0
      invariant done + BlockLengths(spec[g..]) == VersionLengths(version)
      invariant BlocksCut(all, n, done, BlockLengths(spec[g..]), blocks, checks, offset)
    {
      GroupLengths(spec, g, done);
      blocks, checks, offset :=
        CutGroup(tables, codewords, n, spec[g].0, spec[g].1, done, BlockLengths(spec[g + 1..]), blocks, checks, offset);
      done := done + Repeat(spec[g].0, spec[g].1);
    }
    NoLengths(spec, done);
    AllCut(all, n, done, blocks, checks, offset, version);
  }

  lemma NoneCut(codewords: seq<Byte>, n: nat, version: nat)
    requires 1 <= version <= 10 && |codewords| == DataCodewords(version) && n == EcPerBlock(version)
    ensures [] + BlockLengths(BlockSpec(version)[0..]) == VersionLengths(version) && n <= 512
    ensures BlocksCut(codewords, n, [], BlockLengths(BlockSpec(version)[0..]), [], [], 0)
  {
    LengthsTotal(version);
    assert BlockSpec(version)[0..] == BlockSpec(version);
    assert [] + VersionLengths(version) == VersionLengths(version);
  }

  lemma GroupLengths(spec: seq<(nat, nat)>, g: nat, done: seq<nat>)
    requires g < |spec|
    ensures BlockLengths(spec[g..]) == Repeat(spec[g].0, spec[g].1) + BlockLengths(spec[g + 1..])
    ensures done + BlockLengths(spec[g..]) == (done + Repeat(spec[g].0, spec[g].1)) + BlockLengths(spec[g + 1..])
  {
    assert spec[g..][1..] == spec[g + 1..];
  }

  lemma NoLengths(spec: seq<(nat, nat)>, done: seq<nat>)
    ensures BlockLengths(spec[|spec|..]) == [] && done + [] == done
  {}

  lemma AllCut(codewords: seq<Byte>, n: nat, done: seq<nat>, blocks: seq<seq<Byte>>, checks: seq<seq<Byte>>, offset: nat, version: nat)
    requires 1 <= version <= 10 && |codewords| == DataCodewords(version)
    requires done == VersionLengths(version) && BlocksCut(codewords, n, done, [], blocks, checks, offset)
    ensures blocks == DataBlocks(version, codewords) && checks == CheckBlocks(blocks, n)
  {
    assert done + [] == done;
    assert codewords[..offset] == codewords;
  }

  /** The interleaved codewords of a payload. */
  method FinalCodewordsOf(tables: Tables, bytes: seq<Byte>, version: nat) returns (final: array<Byte>)
    requires tables.Valid() && 1 <= version <= 10 && Fits(|bytes|, version)
    ensures fresh(final) && final[..] == FinalCodewords(version, PayloadCodewords(bytes, version))
  {
    hide *;
    var codewords := DataCodewordsOf(bytes, version);
    var blocks, checks := CutBlocks(tables, codewords, version);
    var interleaved := PushColumns([], blocks, Longest(Lengths(blocks)));
    interleaved := PushColumns(interleaved, checks, EcPerBlock(version));
    FinalUnfold(version, codewords[..], blocks);
    final := new Byte[|interleaved|](k requires 0 <= k < |interleaved| => interleaved[k]);
    assert final[..] == interleaved;
  }

  lemma FinalUnfold(version: nat, codewords: seq<Byte>, blocks: seq<seq<Byte>>)
    requires 1 <= version <= 10 && |codewords| == DataCodewords(version) && blocks == DataBlocks(version, codewords)
    ensures EcPerBlock(version) > 0
    ensures FinalCodewords(version, codewords) == [] + Columns(blocks, 0, Longest(Lengths(blocks)))
      + Columns(CheckBlocks(blocks, EcPerBlock(version)), 0, EcPerBlock(version))
  {
    hide VersionLengths, Split, Columns, Check, Longest, DataCodewords, EcPerBlock;
    EcPositive(version);
    LengthsTotal(version);
    FlattenSplit(codewords, VersionLengths(version));
    var first := Columns(blocks, 0, LongestBlock(version));
    assert [] + first == first;
  }

  lemma EcPositive(version: nat)
    requires 1 <= version <= 10
    ensures EcPerBlock(version) > 0
  {
  }

  // --- Drawing ------------------------------------------------------------------------

  /** Copies the template, places the data, applies a mask and writes its number. */
  method DrawCandidate(template: array2<Module>, final: array<Byte>, version: nat, mask: nat) returns (candidate: array2<Module>)
    requires 1 <= version <= 10 && mask < 8
    requires template.Length0 == template.Length1 == SizeOf(version) && Shows(template, TemplateGrid(version))
    ensures fresh(candidate) && candidate.Length0 == candidate.Length1 == SizeOf(version)
    ensures forall r: nat, c: nat | r < SizeOf(version) && c < SizeOf(version) ::
      candidate[r, c] == CandidateModule(version, final[..], mask, r, c)
  {
    var size := template.Length0;
    candidate := new Module[size, size]((r, c) requires 0 <= r < size && 0 <= c < size reads template => template[r, c]);
    assert Shows(candidate, TemplateGrid(version));
    hide *;
    PlaceData(candidate, final, version, TemplateGrid(version));
    PlacedIsModule(candidate, version, final[..]);
    ApplyMask(candidate, mask);
    PlaceFormatBits(candidate, mask);
    forall r: nat, c: nat | r < size && c < size
      ensures candidate[r, c] == CandidateModule(version, final[..], mask, r, c)
    {
      CandidateUnfold(version, final[..], mask, r, c);
    }
  }

  lemma CandidateUnfold(version: nat, final: seq<Byte>, mask: nat, r: nat, c: nat)
    requires 1 <= version <= 10 && mask < 8
    ensures CandidateModule(version, final, mask, r, c) ==
      if OnFormatBits(SizeOf(version), r, c) then FormatModule(SizeOf(version), mask, r, c)
      else MaskedModule(mask, r, c, PlacedModule(version, final, r, c))
  {}

  /** The loop places exactly the bits that the definition of a placed module says. */
  lemma PlacedIsModule(m: array2<Module>, version: nat, final: seq<Byte>)
    requires 1 <= version <= 10 && m.Length0 == m.Length1 == SizeOf(version)
    requires Placed(m, TemplateGrid(version), FreeOrder(version), final)
    ensures forall r: nat, c: nat | r < SizeOf(version) && c < SizeOf(version) :: m[r, c] == PlacedModule(version, final, r, c)
  {
    var order := FreeOrder(version);
    FreeOrderMembers(version);
    hide TemplateAt, FreeOrder, DataBit, NoRepeats;
    forall r: nat, c: nat | r < SizeOf(version) && c < SizeOf(version)
      ensures m[r, c] == PlacedModule(version, final, r, c)
    {
      if Pos(r, c) in order {
        var k := IndexOf(order, Pos(r, c));
        assert order[k] == Pos(r, c);
      }
    }
  }

  /** The first mask among those below `end` whose symbol scores least. */
  ghost predicate FirstBest(version: nat, final: seq<Byte>, score: Rows -> int, mask: nat, end: nat)
    requires 1 <= version <= 10 && end <= 8
  {
    && mask < end
    && (forall k | 0 <= k < end :: score(CandidateRows(version, final, mask)) <= score(CandidateRows(version, final, k)))
    && (forall k | 0 <= k < mask :: score(CandidateRows(version, final, mask)) < score(CandidateRows(version, final, k)))
  }

  lemma RowsAre(m: array2<Module>, version: nat, final: seq<Byte>, mask: nat)
    requires 1 <= version <= 10 && mask < 8 && m.Length0 == m.Length1 == SizeOf(version)
    requires forall r: nat, c: nat | r < SizeOf(version) && c < SizeOf(version) :: m[r, c] == CandidateModule(version, final, mask, r, c)
    ensures RowsOf(m) == CandidateRows(version, final, mask)
  {
    hide CandidateModule;
    var rows, want := RowsOf(m), CandidateRows(version, final, mask);
    forall r | 0 <= r < |rows|
      ensures rows[r] == want[r]
    {}
  }

  /** Draws the symbol with every mask and keeps the first one with the least score. */
  method ChooseMask(template: array2<Module>, final: array<Byte>, version: nat, score: Rows -> int) returns (best: Rows, mask: nat)
    requires 1 <= version <= 10
    requires template.Length0 == template.Length1 == SizeOf(version) && Shows(template, TemplateGrid(version))
    ensures FirstBest(version, final[..], score, mask, 8)
    ensures best == CandidateRows(version, final[..], mask)
  {
    hide Shows, CandidateModule, CandidateRows, RowsOf;
    best := RowsOf(template);
    mask := 0;
    var bestScore: Option<int> := None;
    for k := 0 to 8
      invariant bestScore.None? <==> k == 0
      invariant k > 0 ==> FirstBest(version, final[..], score, mask, k)
      invariant k > 0 ==> best == CandidateRows(version, final[..], mask) && bestScore == Some(score(best))
    {
      var candidate := DrawCandidate(template, final, version, k);
      RowsAre(candidate, version, final[..], k);
      var rows := RowsOf(candidate);
      if bestScore.None? || score(rows) < bestScore.value {
        bestScore := Some(score(rows));
        best := rows;
        mask := k;
      }
    }
  }

  /**
   * Encodes a byte string. A payload of more than 213 bytes is refused; any other is drawn in the smallest
   * version that holds it, with the mask of least penalty, and can be read back from the picture.
   */
  method EncodeQR(tables: Tables, bytes: seq<Byte>, quiet: nat, score: Rows -> int)
    returns (r: Result<seq<seq<bool>>, PayloadTooLong>, ghost version: nat, ghost mask: nat)
    requires tables.Valid()
    ensures r.Failure? <==> |bytes| > 213
    ensures r.Success? ==> 1 <= version <= 10 && Fits(|bytes|, version) && forall v | 1 <= v < version :: !Fits(|bytes|, v)
    ensures r.Success? ==> FirstBest(version, FinalCodewords(version, PayloadCodewords(bytes, version)), score, mask, 8)
    ensures r.Success? ==>
      r.value == Picture(CandidateRows(version, FinalCodewords(version, PayloadCodewords(bytes, version)), mask), quiet)
    ensures r.Success? ==> ReadSymbol(r.value, quiet) == Some(bytes)
  {
    hide *;
    version, mask := 0, 0;
    PayloadLimit(|bytes|);
    var found := FindVersion(|bytes|, 1);
    if found.None? {
      return Failure(PayloadTooLong(|bytes|)), version, mask;
    }
    version := found.value;
    var final := FinalCodewordsOf(tables, bytes, found.value);
    var template := BuildTemplate(found.value);
    TemplateShows(template, version);
    var best, chosen := ChooseMask(template, final, found.value, score);
    mask := chosen;
    BestIsMask(version, final[..], score, mask);
    PictureRoundTrip(bytes, version, mask, quiet);
    r := Success(Picture(best, quiet));
  }

  lemma BestIsMask(version: nat, final: seq<Byte>, score: Rows -> int, mask: nat)
    requires 1 <= version <= 10 && FirstBest(version, final, score, mask, 8)
    ensures mask < 8
  {}

  lemma TemplateShows(m: array2<Module>, version: nat)
    requires 1 <= version <= 10 && m.Length0 == m.Length1 == SizeOf(version)
    requires forall r, c | 0 <= r < m.Length0 && 0 <= c < m.Length1 :: m[r, c] == TemplateAt(version, r, c)
    ensures Shows(m, TemplateGrid(version))
  {
    hide TemplateAt;
  }

  /** The picture of any payload that fits reads back as the payload, with any mask and any quiet zone. */
  lemma PictureRoundTrip(bytes: seq<Byte>, version: nat, mask: nat, quiet: nat)
    requires 1 <= version <= 10 && Fits(|bytes|, version) && mask < 8
    ensures ReadSymbol(Picture(CandidateRows(version, FinalCodewords(version, PayloadCodewords(bytes, version)), mask), quiet), quiet)
      == Some(bytes)
  {
    hide FinalCodewords, PayloadCodewords, CandidateModule, ReadView, Fits, ShowsSymbol, PictureView;
    var final := FinalCodewords(version, PayloadCodewords(bytes, version));
    VersionOfSize(version);
    PictureShows(version, final, mask, quiet);
    SymbolRoundTrip(bytes, version, mask, PictureView(Picture(CandidateRows(version, final, mask), quiet), quiet));
  }

  lemma VersionOfSize(version: nat)
    ensures (SizeOf(version) - 17) / 4 == version && (SizeOf(version) - 17) % 4 == 0
  {
  }

  lemma PictureShows(version: nat, final: seq<Byte>, mask: nat, quiet: nat)
    requires 1 <= version <= 10 && mask < 8
    ensures ShowsSymbol(PictureView(Picture(CandidateRows(version, final, mask), quiet), quiet), version, final, mask)
  {
    hide CandidateModule;
  }

  /** Each data block followed by its check block is a word of the Reed-Solomon code. */
  lemma BlocksAreCodewords(version: nat, codewords: seq<Byte>, b: nat)
    requires 1 <= version <= 10 && |codewords| == DataCodewords(version) && b < |VersionLengths(version)|
    ensures var blocks := DataBlocks(version, codewords);
            IsCodeword(blocks[b] + CheckBlocks(blocks, EcPerBlock(version))[b], EcPerBlock(version))
  {
    hide IsCodeword, Check, Split;
    CheckMakesCodeword(DataBlocks(version, codewords)[b], EcPerBlock(version));
  }
}
