/** The encrypted package container: a fixed header, then chunks of the archive in authenticated frames, closed by an empty frame. */
module EncryptedPackages {
  import opened Wrappers
  import opened Bitwise
  import opened MachineIntegers
  import BigEndian

  type Bytes = seq<Byte>

  const NONCE_SIZE: nat := 12
  const TAG_SIZE: nat := 16
  const CHUNK_SIZE: nat := 1048576
  const FIXED_HEADER: nat := 19
  const MAX_WRAPPED: nat := 16384

  datatype Error = Truncated | BadMagic | Unsupported | BadKeyLength | BadFrame | BadAuthentication | BadSequence | Trailing | TooLarge | BadKey | TooManyFrames

  // --- Frames --------------------------------------------------------------------------

  /** Authenticated encryption under one key. */
  datatype Cipher = Cipher(seal: (Bytes, Bytes, Bytes) -> Bytes, open: (Bytes, Bytes, Bytes) -> Option<Bytes>)

  /** An ideal cipher: a frame opens to a plaintext exactly if it is the seal of that plaintext, and a seal is longer by the tag. */
  ghost predicate Ideal(c: Cipher) {
    && (forall nonce, aad, p :: |c.seal(nonce, aad, p)| == |p| + TAG_SIZE)
    && (forall nonce, aad, frame, p :: c.open(nonce, aad, frame) == Some(p) <==> frame == c.seal(nonce, aad, p))
  }

  datatype Header = Header(raw: Bytes, wrapped: Bytes, nonce: Bytes)

  function FrameNonce(base: Bytes, index: nat): Bytes
    requires |base| == NONCE_SIZE
  {
    base[..4] + BigEndian.Encode(index, 8)
  }

  function FrameAad(header: Bytes, index: nat): Bytes {
    header + BigEndian.Encode(index, 8)
  }

  /** A frame's nonce: the first four bytes of the header's, then the frame number in eight bytes, the highest first. */
  lemma NonceBytes(base: Bytes, index: nat)
    requires |base| == NONCE_SIZE && index < 0x1_0000_0000_0000_0000
    ensures var nonce := FrameNonce(base, index);
            |nonce| == 12 && (forall k | 0 <= k < 4 :: nonce[k] == base[k]) && Number(nonce[4..]) == index
  {
    BigEndian.Bound8();
    BigEndian.DecodeEncode(index, 8);
    NumberIsDecode(BigEndian.Encode(index, 8));
    assert FrameNonce(base, index)[4..] == BigEndian.Encode(index, 8);
  }

  /** The data a frame is bound to: the whole header, then the frame number in eight bytes, the highest first. */
  lemma AadBytes(header: Bytes, index: nat)
    requires index < 0x1_0000_0000_0000_0000
    ensures var aad := FrameAad(header, index);
            |aad| == |header| + 8 && aad[..|header|] == header && Number(aad[|header|..]) == index
  {
    BigEndian.Bound8();
    BigEndian.DecodeEncode(index, 8);
    NumberIsDecode(BigEndian.Encode(index, 8));
    assert FrameAad(header, index)[|header|..] == BigEndian.Encode(index, 8);
  }

  /** The number written in bytes, the highest first. */
  function Number(bytes: Bytes): nat {
    if bytes == [] then 0 else bytes[0] * Power256(|bytes| - 1) + Number(bytes[1..])
  }

  function Power256(n: nat): nat {
    if n == 0 then 1 else 256 * Power256(n - 1)
  }

  lemma {:induction false} NumberSnoc(bytes: Bytes, b: Byte)
    ensures Number(bytes + [b]) == 256 * Number(bytes) + b
  {
    if bytes == [] {
      assert Number([b]) == b * Power256(0) + Number([b][1..]);
    } else {
      assert (bytes + [b])[1..] == bytes[1..] + [b];
      NumberSnoc(bytes[1..], b);
      assert bytes[0] * Power256(|bytes|) == 256 * (bytes[0] * Power256(|bytes| - 1));
    }
  }

  lemma {:induction false} NumberIsDecode(bytes: Bytes)
    ensures Number(bytes) == BigEndian.Decode(bytes)
  {
    if bytes != [] {
      var init := bytes[..|bytes| - 1];
      NumberIsDecode(init);
      NumberSnoc(init, bytes[|bytes| - 1]);
      assert bytes == init + [bytes[|bytes| - 1]];
    }
  }

  /** Nonce and data of a frame tell its number, the data tells the header as well, and no two frames of a package share either. */
  lemma FramesDiffer(h: Header, i: nat, g: Header, k: nat)
    requires |h.nonce| == NONCE_SIZE && |g.nonce| == NONCE_SIZE && i < 0x1_0000_0000_0000_0000 && k < 0x1_0000_0000_0000_0000
    ensures FrameAad(h.raw, i) == FrameAad(g.raw, k) <==> h.raw == g.raw && i == k
    ensures FrameNonce(h.nonce, i) == FrameNonce(g.nonce, k) <==> h.nonce[..4] == g.nonce[..4] && i == k
  {
    hide FrameAad, FrameNonce;
    AadBytes(h.raw, i);
    AadBytes(g.raw, k);
    NonceBytes(h.nonce, i);
    NonceBytes(g.nonce, k);
    if h.nonce[..4] == g.nonce[..4] && i == k {
      SameNonce(h.nonce, g.nonce, i);
    }
    if FrameNonce(h.nonce, i) == FrameNonce(g.nonce, k) {
      forall x | 0 <= x < 4
        ensures h.nonce[x] == g.nonce[x]
      {
      }
    }
  }

  lemma SameNonce(a: Bytes, b: Bytes, index: nat)
    requires |a| == NONCE_SIZE && |b| == NONCE_SIZE && a[..4] == b[..4]
    ensures FrameNonce(a, index) == FrameNonce(b, index)
  {
  }

  function Seal(c: Cipher, h: Header, index: nat, chunk: Bytes): Bytes
    requires |h.nonce| == NONCE_SIZE
  {
    c.seal(FrameNonce(h.nonce, index), FrameAad(h.raw, index), chunk)
  }

  function Open(c: Cipher, h: Header, index: nat, frame: Bytes): Option<Bytes>
    requires |h.nonce| == NONCE_SIZE
  {
    c.open(FrameNonce(h.nonce, index), FrameAad(h.raw, index), frame)
  }

  /** A frame on the wire: its length in four bytes, then the sealed chunk. */
  function Frame(c: Cipher, h: Header, index: nat, chunk: Bytes): Bytes
    requires |h.nonce| == NONCE_SIZE
  {
    BigEndian.Encode(|chunk| + TAG_SIZE, 4) + Seal(c, h, index, chunk)
  }

  /** The one framing of a plaintext from a frame number on: full chunks, at most one short chunk, and the empty frame. */
  function Framing(c: Cipher, h: Header, index: nat, p: Bytes): Bytes
    requires |h.nonce| == NONCE_SIZE
    decreases |p|
  {
    if p == [] then Frame(c, h, index, [])
    else if |p| <= CHUNK_SIZE then Frame(c, h, index, p) + Frame(c, h, index + 1, [])
    else Frame(c, h, index, p[..CHUNK_SIZE]) + Framing(c, h, index + 1, p[CHUNK_SIZE..])
  }

  // --- Reading frames ------------------------------------------------------------------

  datatype Read = Broken(error: Error) | Opened(chunk: Bytes, rest: Bytes)

  /** Takes one frame off the stream and opens it. */
  function ReadFrame(c: Cipher, h: Header, index: nat, stream: Bytes): (r: Read)
    requires |h.nonce| == NONCE_SIZE
    ensures r.Opened? ==> |r.rest| < |stream|
  {
    if |stream| < 4 then Broken(Truncated)
    else
      var length := BigEndian.Decode(stream[..4]);
      if length < TAG_SIZE || length > CHUNK_SIZE + TAG_SIZE then Broken(BadFrame)
      else if |stream| < 4 + length then Broken(Truncated)
      else
        var plain := Open(c, h, index, stream[4..4 + length]);
        if plain.None? then Broken(BadAuthentication) else Opened(plain.value, stream[4 + length..])
  }

  /** Reads the rest of a stream: after so many frames, with so much room for plaintext left, and after a short chunk or not. */
  function ReadFrames(c: Cipher, h: Header, index: nat, room: int, short: bool, stream: Bytes): Result<Bytes, Error>
    requires |h.nonce| == NONCE_SIZE
    decreases |stream|
  {
    var read := ReadFrame(c, h, index, stream);
    if read.Broken? then Failure(read.error)
    else if read.chunk == [] then
      if read.rest == [] then Success([]) else Failure(Trailing)
    else if short || |read.chunk| > CHUNK_SIZE then Failure(BadSequence)
    else if |read.chunk| > room then Failure(TooLarge)
    else if index == 0xffff_ffff_ffff_ffff then Failure(TooManyFrames)
    else
      var later := ReadFrames(c, h, index + 1, room - |read.chunk|, |read.chunk| < CHUNK_SIZE, read.rest);
      if later.Success? then Success(read.chunk + later.value) else later
  }

  lemma FrameLength(c: Cipher, h: Header, index: nat, chunk: Bytes)
    requires Ideal(c) && |h.nonce| == NONCE_SIZE
    ensures |Frame(c, h, index, chunk)| == |chunk| + 20 && |Seal(c, h, index, chunk)| == |chunk| + TAG_SIZE
    ensures |BigEndian.Encode(|chunk| + TAG_SIZE, 4)| == 4
  {
  }

  /** A frame reads back as its chunk. */
  lemma ReadsFrame(c: Cipher, h: Header, index: nat, chunk: Bytes, rest: Bytes)
    requires Ideal(c) && |h.nonce| == NONCE_SIZE && |chunk| <= CHUNK_SIZE
    ensures ReadFrame(c, h, index, Frame(c, h, index, chunk) + rest) == Opened(chunk, rest)
  {
    hide FrameNonce, FrameAad, BigEndian.Encode, BigEndian.Decode;
    FrameLength(c, h, index, chunk);
    var n := |chunk| + TAG_SIZE;
    var stream := Frame(c, h, index, chunk) + rest;
    BigEndian.Bound4();
    BigEndian.DecodeEncode(n, 4);
    assert stream[..4] == BigEndian.Encode(n, 4);
    assert stream[4..4 + n] == Seal(c, h, index, chunk);
    assert stream[4 + n..] == rest;
    assert Open(c, h, index, Seal(c, h, index, chunk)) == Some(chunk);
  }

  /** Whatever reads as a chunk is its frame. */
  lemma FrameOfRead(c: Cipher, h: Header, index: nat, stream: Bytes)
    requires Ideal(c) && |h.nonce| == NONCE_SIZE && ReadFrame(c, h, index, stream).Opened?
    ensures var read := ReadFrame(c, h, index, stream);
            |read.chunk| <= CHUNK_SIZE && stream == Frame(c, h, index, read.chunk) + read.rest
  {
    hide FrameNonce, FrameAad, BigEndian.Encode, BigEndian.Decode;
    var read := ReadFrame(c, h, index, stream);
    var n := BigEndian.Decode(stream[..4]);
    assert stream[4..4 + n] == Seal(c, h, index, read.chunk);
    FrameLength(c, h, index, read.chunk);
    BigEndian.EncodeDecode(stream[..4]);
    assert n == |read.chunk| + TAG_SIZE && |stream[..4]| == 4;
    assert stream[..4] == BigEndian.Encode(n, 4);
    assert stream == stream[..4] + stream[4..4 + n] + stream[4 + n..];
  }

  /** If nonce or data differ, no seal under the one is a seal under the other. */
  ghost predicate SealsApart(c: Cipher, nonce: Bytes, aad: Bytes, nonce': Bytes, aad': Bytes) {
    nonce != nonce' || aad != aad' ==> forall p, q :: c.seal(nonce, aad, p) != c.seal(nonce', aad', q)
  }

  /** A frame sealed for one place is refused at any other: under another header, or as another frame of the same package. */
  lemma FrameIsBound(c: Cipher, h: Header, i: nat, g: Header, k: nat, chunk: Bytes, rest: Bytes)
    requires Ideal(c) && |h.nonce| == NONCE_SIZE && |g.nonce| == NONCE_SIZE && |chunk| <= CHUNK_SIZE
    requires i < 0x1_0000_0000_0000_0000 && k < 0x1_0000_0000_0000_0000 && (h.raw != g.raw || i != k)
    requires SealsApart(c, FrameNonce(h.nonce, i), FrameAad(h.raw, i), FrameNonce(g.nonce, k), FrameAad(g.raw, k))
    ensures ReadFrame(c, g, k, Frame(c, h, i, chunk) + rest) == Broken(BadAuthentication)
  {
    hide FrameNonce, FrameAad, BigEndian.Encode, BigEndian.Decode;
    FramesDiffer(h, i, g, k);
    FrameLength(c, h, i, chunk);
    var n := |chunk| + TAG_SIZE;
    var stream := Frame(c, h, i, chunk) + rest;
    BigEndian.Bound4();
    BigEndian.DecodeEncode(n, 4);
    assert stream[..4] == BigEndian.Encode(n, 4);
    assert stream[4..4 + n] == Seal(c, h, i, chunk);
    forall q: Bytes
      ensures Open(c, g, k, Seal(c, h, i, chunk)) != Some(q)
    {
    }
  }

  /** The plaintext after a short chunk must be empty, and otherwise it must fit. */
  predicate Fits(p: Bytes, room: int, short: bool) {
    p == [] || (!short && |p| <= room)
  }

  /** Reading accepts a plaintext exactly from its framing, if it fits; from a framing that does not fit the answer is that it is too large. */
  lemma {:induction false} ReadsExactly(c: Cipher, h: Header, index: nat, room: int, short: bool, stream: Bytes, p: Bytes)
    requires Ideal(c) && |h.nonce| == NONCE_SIZE && index + room < 0xffff_ffff_ffff_ffff
    ensures ReadFrames(c, h, index, room, short, stream) == Success(p) <==> stream == Framing(c, h, index, p) && Fits(p, room, short)
    ensures stream == Framing(c, h, index, p) && !short && !Fits(p, room, short) ==> ReadFrames(c, h, index, room, short, stream) == Failure(TooLarge)
    decreases |stream|
  {
    hide ReadFrame, Frame, Framing, Ideal;
    var read := ReadFrame(c, h, index, stream);
    FramingUnfolds(c, h, index, p);
    if stream == Framing(c, h, index, p) {
      ReadsFrame(c, h, index, p[..FirstChunk(p)], if p == [] then [] else Framing(c, h, index + 1, p[FirstChunk(p)..]));
    }
    if read.Opened? {
      FrameOfRead(c, h, index, stream);
      if read.chunk != [] && !short && |read.chunk| <= room && read.chunk <= p {
        var q := p[|read.chunk|..];
        assert p == read.chunk + q && p[..|read.chunk|] == read.chunk;
        ReadsExactly(c, h, index + 1, room - |read.chunk|, |read.chunk| < CHUNK_SIZE, read.rest, q);
      }
    }
  }

  function FirstChunk(p: Bytes): (k: nat)
    ensures k <= |p|
  {
    if |p| < CHUNK_SIZE then |p| else CHUNK_SIZE
  }

  lemma FramingUnfolds(c: Cipher, h: Header, index: nat, p: Bytes)
    requires |h.nonce| == NONCE_SIZE
    ensures Framing(c, h, index, p)
         == Frame(c, h, index, p[..FirstChunk(p)]) + if p == [] then [] else Framing(c, h, index + 1, p[FirstChunk(p)..])
  {
    hide Frame;
    var k := FirstChunk(p);
    if k == |p| {
      assert p[..k] == p && p[k..] == [];
    }
  }

  /** A length that no frame can have is refused whatever follows. */
  lemma BadLengthIsRefused(c: Cipher, h: Header, index: nat, room: int, short: bool, stream: Bytes)
    requires |h.nonce| == NONCE_SIZE && |stream| >= 4 && !(16 <= Number(stream[..4]) <= 1048592)
    ensures ReadFrames(c, h, index, room, short, stream) == Failure(BadFrame)
  {
    hide Number, BigEndian.Decode;
    NumberIsDecode(stream[..4]);
  }

  lemma CutFrame(c: Cipher, h: Header, index: nat, chunk: Bytes, n: nat)
    requires Ideal(c) && |h.nonce| == NONCE_SIZE && |chunk| <= CHUNK_SIZE && n < |Frame(c, h, index, chunk)|
    ensures ReadFrame(c, h, index, Frame(c, h, index, chunk)[..n]) == Broken(Truncated)
  {
    hide FrameNonce, FrameAad, BigEndian.Encode, BigEndian.Decode;
    FrameLength(c, h, index, chunk);
    var stream := Frame(c, h, index, chunk)[..n];
    if n >= 4 {
      BigEndian.Bound4();
      BigEndian.DecodeEncode(|chunk| + TAG_SIZE, 4);
      assert stream[..4] == BigEndian.Encode(|chunk| + TAG_SIZE, 4);
    }
  }

  /** A framing that breaks off anywhere is refused as truncated. */
  lemma {:induction false} CutIsTruncated(c: Cipher, h: Header, index: nat, room: int, short: bool, p: Bytes, n: nat)
    requires Ideal(c) && |h.nonce| == NONCE_SIZE && index + room < 0xffff_ffff_ffff_ffff && Fits(p, room, short)
    requires n < |Framing(c, h, index, p)|
    ensures ReadFrames(c, h, index, room, short, Framing(c, h, index, p)[..n]) == Failure(Truncated)
    decreases |p|
  {
    hide ReadFrame, Frame, Framing, Ideal;
    var k := FirstChunk(p);
    var first, rest := Frame(c, h, index, p[..k]), if p == [] then [] else Framing(c, h, index + 1, p[k..]);
    FramingUnfolds(c, h, index, p);
    if n < |first| {
      CutFrame(c, h, index, p[..k], n);
      assert Framing(c, h, index, p)[..n] == first[..n];
    } else {
      var left := n - |first|;
      assert Framing(c, h, index, p)[..n] == first + rest[..left];
      ReadsFrame(c, h, index, p[..k], rest[..left]);
      CutIsTruncated(c, h, index + 1, room - k, k < CHUNK_SIZE, p[k..], left);
    }
  }

  /** Whatever follows a framing makes it be refused. */
  lemma {:induction false} ExtraIsTrailing(c: Cipher, h: Header, index: nat, room: int, short: bool, p: Bytes, extra: Bytes)
    requires Ideal(c) && |h.nonce| == NONCE_SIZE && index + room < 0xffff_ffff_ffff_ffff && Fits(p, room, short) && extra != []
    ensures ReadFrames(c, h, index, room, short, Framing(c, h, index, p) + extra) == Failure(Trailing)
    decreases |p|
  {
    hide ReadFrame, Frame, Framing, Ideal;
    var k := FirstChunk(p);
    var first, rest := Frame(c, h, index, p[..k]), if p == [] then [] else Framing(c, h, index + 1, p[k..]);
    FramingUnfolds(c, h, index, p);
    assert Framing(c, h, index, p) + extra == first + (rest + extra);
    ReadsFrame(c, h, index, p[..k], rest + extra);
    if p == [] {
      assert rest + extra == extra;
    } else {
      ExtraIsTrailing(c, h, index + 1, room - k, k < CHUNK_SIZE, p[k..], extra);
    }
  }

  /** The frame counter never runs out. */
  lemma {:induction false} FramesSuffice(c: Cipher, h: Header, index: nat, room: int, short: bool, stream: Bytes)
    requires |h.nonce| == NONCE_SIZE && index + room < 0xffff_ffff_ffff_ffff
    ensures ReadFrames(c, h, index, room, short, stream) != Failure(TooManyFrames)
    decreases |stream|
  {
    hide Open, BigEndian.Decode;
    var read := ReadFrame(c, h, index, stream);
    if read.Opened? && read.chunk != [] && !short && |read.chunk| <= room {
      FramesSuffice(c, h, index + 1, room - |read.chunk|, |read.chunk| < CHUNK_SIZE, read.rest);
    }
  }

  function Continue(output: Bytes, later: Result<Bytes, Error>): Result<Bytes, Error> {
    if later.Success? then Success(output + later.value) else later
  }

  lemma ContinueNothing(r: Result<Bytes, Error>)
    ensures Continue([], r) == r
  {
    if r.Success? {
      assert [] + r.value == r.value;
    }
  }

  lemma ReadStep(c: Cipher, h: Header, index: nat, room: int, short: bool, stream: Bytes, output: Bytes)
    requires |h.nonce| == NONCE_SIZE && ReadFrame(c, h, index, stream).Opened?
    requires var read := ReadFrame(c, h, index, stream);
             read.chunk != [] && !short && |read.chunk| <= CHUNK_SIZE && |read.chunk| <= room && index != 0xffff_ffff_ffff_ffff
    ensures var read := ReadFrame(c, h, index, stream);
            Continue(output, ReadFrames(c, h, index, room, short, stream))
            == Continue(output + read.chunk, ReadFrames(c, h, index + 1, room - |read.chunk|, |read.chunk| < CHUNK_SIZE, read.rest))
  {
    hide ReadFrame;
    var read := ReadFrame(c, h, index, stream);
    var later := ReadFrames(c, h, index + 1, room - |read.chunk|, |read.chunk| < CHUNK_SIZE, read.rest);
    if later.Success? {
      assert output + (read.chunk + later.value) == output + read.chunk + later.value;
    }
  }

  /** Decrypts the frames of a package one after another; the plaintext must not exceed the limit. */
  method DecryptPackageFrames(c: Cipher, h: Header, stream: Bytes, maxPlaintext: int64) returns (r: Result<Bytes, Error>)
    requires |h.nonce| == NONCE_SIZE
    ensures r == ReadFrames(c, h, 0, maxPlaintext as int, false, stream)
  {
    hide ReadFrame;
    var chunkIndex: uint64 := 0;
    var total: int64 := 0;
    var sawShortChunk := false;
    var source, output := stream, [];
    FramesSuffice(c, h, 0, maxPlaintext as int, false, stream);
    ContinueNothing(ReadFrames(c, h, 0, maxPlaintext as int, false, stream));
    while true
      invariant 0 <= total as int == |output| && (output == [] || total <= maxPlaintext) && chunkIndex as int <= total as int
      invariant ReadFrames(c, h, 0, maxPlaintext as int, false, stream)
             == Continue(output, ReadFrames(c, h, chunkIndex as nat, maxPlaintext as int - total as int, sawShortChunk, source))
      decreases |source|
    {
      var read := ReadFrame(c, h, chunkIndex as nat, source);
      if read.Broken? {
        return Failure(read.error);
      }
      if read.chunk == [] {
        assert output + [] == output;
        return if read.rest == [] then Success(output) else Failure(Trailing);
      }
      if sawShortChunk || |read.chunk| > CHUNK_SIZE {
        return Failure(BadSequence);
      }
      if |read.chunk| as int64 > maxPlaintext - total {
        return Failure(TooLarge);
      }
      if chunkIndex == 0xffff_ffff_ffff_ffff {
        return Failure(TooManyFrames);
      }
      ReadStep(c, h, chunkIndex as nat, maxPlaintext as int - total as int, sawShortChunk, source, output);
      output := output + read.chunk;
      total := total + |read.chunk| as int64;
      sawShortChunk := |read.chunk| < CHUNK_SIZE;
      chunkIndex := chunkIndex + 1;
      source := read.rest;
    }
  }

  // --- The header ----------------------------------------------------------------------

  const MAGIC: Bytes := [65, 84, 82, 73, 69, 78, 67, 49]

  function HeaderBytes(wrapped: Bytes, nonce: Bytes): Bytes {
    MAGIC + [1] + BigEndian.Encode(|wrapped|, 4) + [NONCE_SIZE, TAG_SIZE] + BigEndian.Encode(CHUNK_SIZE, 4) + wrapped + nonce
  }

  predicate WellFormed(h: Header) {
    0 < |h.wrapped| <= MAX_WRAPPED && |h.nonce| == NONCE_SIZE && h.raw == HeaderBytes(h.wrapped, h.nonce)
  }

  /** Reads the header of a package. */
  function ReadHeader(file: Bytes): (r: Result<Header, Error>)
    ensures r.Success? ==> |r.value.nonce| == NONCE_SIZE && |r.value.raw| <= |file|
  {
    if |file| < FIXED_HEADER then Failure(Truncated)
    else if file[..8] != MAGIC then Failure(BadMagic)
    else if file[8] != 1 then Failure(Unsupported)
    else
      var wrapped := BigEndian.Decode(file[9..13]);
      if wrapped == 0 || wrapped > MAX_WRAPPED then Failure(BadKeyLength)
      else if file[13] != NONCE_SIZE || file[14] != TAG_SIZE || BigEndian.Decode(file[15..19]) != CHUNK_SIZE then Failure(Unsupported)
      else if |file| < FIXED_HEADER + wrapped + NONCE_SIZE then Failure(Truncated)
      else
        var raw := file[..FIXED_HEADER + wrapped + NONCE_SIZE];
        Success(Header(raw, raw[FIXED_HEADER..FIXED_HEADER + wrapped], raw[FIXED_HEADER + wrapped..]))
  }

  lemma HeaderLength(wrapped: Bytes, nonce: Bytes)
    ensures |HeaderBytes(wrapped, nonce)| == FIXED_HEADER + |wrapped| + |nonce|
    ensures var b := HeaderBytes(wrapped, nonce);
            && b[..8] == MAGIC && b[8] == 1 && b[9..13] == BigEndian.Encode(|wrapped|, 4)
            && b[13] == NONCE_SIZE && b[14] == TAG_SIZE && b[15..19] == BigEndian.Encode(CHUNK_SIZE, 4)
            && b[19..19 + |wrapped|] == wrapped && b[19 + |wrapped|..] == nonce
  {
    hide BigEndian.Encode;
    EncodedLengths(|wrapped|);
  }

  lemma EncodedLengths(n: nat)
    ensures |BigEndian.Encode(n, 4)| == 4 && |BigEndian.Encode(CHUNK_SIZE, 4)| == 4
  {
  }

  /** A header is read exactly from its own bytes. */
  lemma HeaderExactly(file: Bytes, h: Header)
    ensures ReadHeader(file) == Success(h) <==> WellFormed(h) && h.raw <= file
  {
    hide BigEndian.Encode, BigEndian.Decode, HeaderBytes;
    if ReadHeader(file) == Success(h) {
      HeaderOfRead(file);
    }
    if WellFormed(h) && h.raw <= file {
      HeaderLength(h.wrapped, h.nonce);
      BigEndian.Bound4();
      BigEndian.DecodeEncode(|h.wrapped|, 4);
      BigEndian.DecodeEncode(CHUNK_SIZE, 4);
      assert file[..|h.raw|] == h.raw;
      assert file[..8] == h.raw[..8] && file[9..13] == h.raw[9..13] && file[15..19] == h.raw[15..19];
    }
  }

  lemma HeaderOfRead(file: Bytes)
    requires ReadHeader(file).Success?
    ensures WellFormed(ReadHeader(file).value) && ReadHeader(file).value.raw <= file
  {
    hide BigEndian.Encode, BigEndian.Decode;
    var h := ReadHeader(file).value;
    BigEndian.EncodeDecode(file[9..13]);
    BigEndian.EncodeDecode(file[15..19]);
    EncodedLengths(|h.wrapped|);
    assert h.raw == file[..8] + [file[8]] + file[9..13] + [file[13], file[14]] + file[15..19] + h.wrapped + h.nonce;
  }

  lemma FixedBytes(file: Bytes)
    requires |file| >= 19
    ensures file[..8] == MAGIC && file[8] == 1 <==> file[..13] == [65, 84, 82, 73, 69, 78, 67, 49, 1] + file[9..13]
    ensures file[13] == NONCE_SIZE && file[14] == TAG_SIZE && file[15..19] == [0, 16, 0, 0] <==> file[13..19] == [12, 16, 0, 16, 0, 0]
  {
    var front, magic := file[..13], [65, 84, 82, 73, 69, 78, 67, 49, 1];
    assert front == file[..8] + [file[8]] + file[9..13];
    assert front[..9] == file[..8] + [file[8]] && magic == MAGIC + [1];
    assert (magic + file[9..13])[..9] == magic;
    assert front == front[..9] + file[9..13];
    assert front[..9][..8] == file[..8] && magic[..8] == MAGIC;
    assert file[13..19] == [file[13], file[14]] + file[15..19];
    assert file[15..19] == file[13..19][2..];
  }

  /** The header, byte by byte: the magic, version 1, the length of the wrapped key, nonces of 12 and tags of 16 bytes, chunks of 0x100000 bytes, the wrapped key and the nonce. */
  lemma HeaderLayout(file: Bytes)
    ensures ReadHeader(file).Success? <==>
              && |file| >= 19 && file[..13] == [65, 84, 82, 73, 69, 78, 67, 49, 1] + file[9..13] && file[13..19] == [12, 16, 0, 16, 0, 0]
              && 1 <= Number(file[9..13]) <= 16384 && |file| >= 31 + Number(file[9..13])
    ensures ReadHeader(file).Success? ==>
              var h, n := ReadHeader(file).value, Number(file[9..13]);
              h.raw == file[..31 + n] && h.wrapped == file[19..19 + n] && h.nonce == file[19 + n..31 + n]
  {
    hide BigEndian.Decode, MAGIC, Number;
    if |file| >= 19 {
      NumberIsDecode(file[9..13]);
      ChunkSizeBytes(file[15..19]);
      FixedBytes(file);
    }
  }

  lemma ChunkSizeBytes(b: Bytes)
    requires |b| == 4
    ensures BigEndian.Decode(b) == CHUNK_SIZE <==> b == [0, 16, 0, 0]
  {
    BigEndian.EncodeDecode(b);
    assert BigEndian.Encode(0, 1) == [0] && BigEndian.Encode(16, 2) == [0, 16] && BigEndian.Encode(4096, 3) == [0, 16, 0];
    assert BigEndian.Encode(CHUNK_SIZE, 4) == [0, 16, 0, 0];
    BigEndian.Bound4();
    BigEndian.DecodeEncode(CHUNK_SIZE, 4);
  }

  // --- Sizes ---------------------------------------------------------------------------

  /** Full chunks, and one more for a remainder. */
  function Chunks(n: nat): nat {
    n / CHUNK_SIZE + if n % CHUNK_SIZE != 0 then 1 else 0
  }

  /** The exact length of a container: the header, the plaintext, and twenty bytes for every frame and the empty one. */
  function ContainerLength(plaintext: nat, wrapped: nat): nat {
    FIXED_HEADER + wrapped + NONCE_SIZE + plaintext + 20 * (Chunks(plaintext) + 1)
  }

  /** An upper bound for the size of a package, saturating at the largest number. */
  function MaxEncryptedPackageBytes(maxPlaintext: int64, wrapped: int64): int64
    requires -0x8000_0000 <= wrapped < 0x8000_0000
  {
    if maxPlaintext <= 0 then 0
    else
      var chunkCount := maxPlaintext / 1048576 + if maxPlaintext % 1048576 != 0 then 1 else 0;
      var headerLength := 19 + wrapped + 12;
      if headerLength < 0 || maxPlaintext > MAX_INT64 - headerLength then MAX_INT64
      else
        var total := headerLength + maxPlaintext;
        var frameCount := chunkCount + 1;
        if frameCount > (MAX_INT64 - total) / 20 then MAX_INT64 else total + frameCount * 20
  }

  /** The bound is the exact length where that can be represented, and the largest number elsewhere. */
  lemma BoundIsExact(maxPlaintext: int64, wrapped: int64)
    requires maxPlaintext >= 1 && 0 <= wrapped < 0x8000_0000
    ensures var exact := ContainerLength(maxPlaintext as nat, wrapped as nat);
            MaxEncryptedPackageBytes(maxPlaintext, wrapped) as int == if exact <= MAX_INT64 as int then exact else MAX_INT64 as int
  {
  }

  /** The bound grows with both arguments. */
  lemma BoundIsMonotone(a: int64, b: int64, k: int64, l: int64)
    requires a <= b && 0 <= k <= l < 0x8000_0000
    ensures MaxEncryptedPackageBytes(a, k) <= MaxEncryptedPackageBytes(b, l)
  {
    if a >= 1 {
      BoundIsExact(a, k);
      BoundIsExact(b, l);
      ChunksGrow(a as nat, b as nat);
    }
  }

  lemma ChunksGrow(a: nat, b: nat)
    requires a <= b
    ensures Chunks(a) <= Chunks(b)
  {
  }

  lemma ChunksStep(n: nat)
    requires n > CHUNK_SIZE
    ensures Chunks(n) == 1 + Chunks(n - CHUNK_SIZE)
  {
  }

  lemma {:induction false} FramingLength(c: Cipher, h: Header, index: nat, p: Bytes)
    requires Ideal(c) && |h.nonce| == NONCE_SIZE
    ensures |Framing(c, h, index, p)| == |p| + 20 * (Chunks(|p|) + 1)
    decreases |p|
  {
    hide Frame, Ideal, Chunks;
    FrameLength(c, h, index, []);
    FrameLength(c, h, index + 1, []);
    ChunksSmall();
    if |p| > CHUNK_SIZE {
      FrameLength(c, h, index, p[..CHUNK_SIZE]);
      FramingLength(c, h, index + 1, p[CHUNK_SIZE..]);
      ChunksStep(|p|);
    } else {
      FrameLength(c, h, index, p);
    }
  }

  lemma ChunksSmall()
    ensures Chunks(0) == 0 && forall n: nat | 0 < n <= CHUNK_SIZE :: Chunks(n) == 1
  {
  }

  // --- The whole package ---------------------------------------------------------------

  /** A package with a plaintext. */
  function Package(c: Cipher, h: Header, p: Bytes): Bytes
    requires |h.nonce| == NONCE_SIZE
  {
    h.raw + Framing(c, h, 0, p)
  }

  /** The cipher a wrapped key stands for, if it can be unwrapped. */
  type Keyring = Bytes -> Option<Cipher>

  /** Checks the size of a package before and after its header is read, unwraps its key and decrypts its frames. */
  method DecryptEncryptedPackage(file: Bytes, maxPlaintext: int64, keys: Keyring) returns (r: Result<Bytes, Error>)
    requires |file| <= MAX_INT64 as int
    ensures r == Decrypted(file, maxPlaintext, keys)
  {
    if |file| < FIXED_HEADER {
      return Failure(Truncated);
    }
    if |file| as int64 > MaxEncryptedPackageBytes(maxPlaintext, MAX_WRAPPED as int64) {
      return Failure(TooLarge);
    }
    var header := ReadHeader(file);
    if header.Failure? {
      return Failure(header.error);
    }
    WrappedLength(file);
    if |file| as int64 > MaxEncryptedPackageBytes(maxPlaintext, |header.value.wrapped| as int64) {
      return Failure(TooLarge);
    }
    var key := keys(header.value.wrapped);
    if key.None? {
      return Failure(BadKey);
    }
    r := DecryptPackageFrames(key.value, header.value, file[|header.value.raw|..], maxPlaintext);
  }

  lemma WrappedLength(file: Bytes)
    ensures ReadHeader(file).Success? ==> |ReadHeader(file).value.wrapped| <= MAX_WRAPPED
  {
  }

  function Decrypted(file: Bytes, maxPlaintext: int64, keys: Keyring): Result<Bytes, Error>
    requires |file| <= MAX_INT64 as int
  {
    var header := ReadHeader(file);
    if |file| < FIXED_HEADER then Failure(Truncated)
    else if |file| as int64 > MaxEncryptedPackageBytes(maxPlaintext, MAX_WRAPPED as int64) then Failure(TooLarge)
    else if header.Failure? then Failure(header.error)
    else
      WrappedLength(file);
      if |file| as int64 > MaxEncryptedPackageBytes(maxPlaintext, |header.value.wrapped| as int64) then Failure(TooLarge)
      else
        var key := keys(header.value.wrapped);
        if key.None? then Failure(BadKey)
        else ReadFrames(key.value, header.value, 0, maxPlaintext as int, false, file[|header.value.raw|..])
  }

  ghost predicate IdealKeys(keys: Keyring) {
    forall wrapped :: keys(wrapped).Some? ==> Ideal(keys(wrapped).value)
  }

  predicate IsPackage(file: Bytes, keys: Keyring, h: Header, p: Bytes) {
    WellFormed(h) && keys(h.wrapped).Some? && file == Package(keys(h.wrapped).value, h, p)
  }

  /** With a positive limit a package is accepted exactly if it is the package of a plaintext within the limit: the early size checks turn away nothing that the frames would let through. */
  lemma AcceptsWithin(file: Bytes, maxPlaintext: int64, keys: Keyring, p: Bytes)
    requires |file| <= MAX_INT64 as int && maxPlaintext >= 1 && IdealKeys(keys)
    ensures Decrypted(file, maxPlaintext, keys) == Success(p) <==>
      |p| <= maxPlaintext as int
      && exists h: Header :: IsPackage(file, keys, h, p)
  {
    hide ReadFrames, Framing, Ideal, WellFormed, MaxEncryptedPackageBytes, ContainerLength, ReadHeader;
    if Decrypted(file, maxPlaintext, keys) == Success(p) {
      var h := ReadHeader(file).value;
      HeaderExactly(file, h);
      HeaderShape(h);
      var c := keys(h.wrapped).value;
      ReadsExactly(c, h, 0, maxPlaintext as int, false, file[|h.raw|..], p);
      assert file == h.raw + file[|h.raw|..];
      assert IsPackage(file, keys, h, p);
    }
    if |p| <= maxPlaintext as int && exists h: Header :: IsPackage(file, keys, h, p) {
      var h: Header :| IsPackage(file, keys, h, p);
      var c := keys(h.wrapped).value;
      HeaderShape(h);
      HeaderExactly(file, h);
      assert file[|h.raw|..] == Framing(c, h, 0, p);
      ReadsExactly(c, h, 0, maxPlaintext as int, false, file[|h.raw|..], p);
      FramingLength(c, h, 0, p);
      PackageWithinBounds(|file|, |p|, |h.wrapped|, maxPlaintext);
    }
  }

  lemma HeaderShape(h: Header)
    requires WellFormed(h)
    ensures |h.nonce| == NONCE_SIZE && |h.raw| == FIXED_HEADER + |h.wrapped| + NONCE_SIZE && 0 < |h.wrapped| <= MAX_WRAPPED
  {
    HeaderLength(h.wrapped, h.nonce);
  }

  lemma PackageWithinBounds(size: nat, plaintext: nat, wrapped: nat, maxPlaintext: int64)
    requires size <= MAX_INT64 as int && wrapped <= MAX_WRAPPED && plaintext <= maxPlaintext as int && maxPlaintext >= 1
    requires size == FIXED_HEADER + wrapped + NONCE_SIZE + plaintext + 20 * (Chunks(plaintext) + 1)
    ensures size as int64 <= MaxEncryptedPackageBytes(maxPlaintext, wrapped as int64)
    ensures size as int64 <= MaxEncryptedPackageBytes(maxPlaintext, MAX_WRAPPED as int64)
  {
    hide Chunks, MaxEncryptedPackageBytes;
    BoundIsExact(maxPlaintext, wrapped as int64);
    BoundIsExact(maxPlaintext, MAX_WRAPPED as int64);
    ChunksGrow(plaintext, maxPlaintext as nat);
  }

  /** The frames of a package behind another header with the same wrapped key are refused, whatever the header's other bytes are. */
  lemma HeaderIsBound(h: Header, g: Header, p: Bytes, maxPlaintext: int64, keys: Keyring)
    requires WellFormed(h) && WellFormed(g) && g.wrapped == h.wrapped && g.nonce != h.nonce && keys(h.wrapped).Some?
    requires var c := keys(h.wrapped).value;
             && Ideal(c) && |h.nonce| == NONCE_SIZE && |g.nonce| == NONCE_SIZE
             && SealsApart(c, FrameNonce(h.nonce, 0), FrameAad(h.raw, 0), FrameNonce(g.nonce, 0), FrameAad(g.raw, 0))
             && |g.raw + Framing(c, h, 0, p)| <= MAX_INT64 as int
    ensures Decrypted(g.raw + Framing(keys(h.wrapped).value, h, 0, p), maxPlaintext, keys).Failure?
    ensures 1 <= maxPlaintext && |p| <= maxPlaintext as int ==>
              Decrypted(g.raw + Framing(keys(h.wrapped).value, h, 0, p), maxPlaintext, keys) == Failure(BadAuthentication)
  {
    hide Framing, Ideal, WellFormed, ReadHeader, SealsApart, FrameNonce, FrameAad, MaxEncryptedPackageBytes, Frame, ContainerLength;
    var c := keys(h.wrapped).value;
    var file := g.raw + Framing(c, h, 0, p);
    HeaderShape(g);
    HeaderShape(h);
    RawTellsNonce(h, g);
    HeaderExactly(file, g);
    FramingUnfolds(c, h, 0, p);
    var chunk := p[..FirstChunk(p)];
    var rest := if p == [] then [] else Framing(c, h, 1, p[FirstChunk(p)..]);
    FrameIsBound(c, h, 0, g, 0, chunk, rest);
    assert file[|g.raw|..] == Frame(c, h, 0, chunk) + rest;
    if 1 <= maxPlaintext && |p| <= maxPlaintext as int {
      FramingLength(c, h, 0, p);
      PackageWithinBounds(|file|, |p|, |h.wrapped|, maxPlaintext);
    }
  }

  lemma RawTellsNonce(h: Header, g: Header)
    requires WellFormed(h) && WellFormed(g) && g.wrapped == h.wrapped
    ensures h.raw == g.raw ==> h.nonce == g.nonce
  {
    HeaderLength(h.wrapped, h.nonce);
    HeaderLength(g.wrapped, g.nonce);
  }

  // --- The limits ----------------------------------------------------------------------

  /** The limits of an extraction. */
  datatype Limits = Limits(maxArchiveBytes: int64, maxUnpackedBytes: int64, maxFiles: int64)

  const DEFAULT_LIMITS: Limits := Limits(0x2000_0000, 0x8000_0000, 20000)

  /** Limits that are not all positive are replaced by the default ones. */
  function Guarded(limits: Limits): (guarded: Limits)
    ensures guarded.maxArchiveBytes >= 1
  {
    if limits.maxArchiveBytes <= 0 || limits.maxUnpackedBytes <= 0 || limits.maxFiles <= 0 then DEFAULT_LIMITS else limits
  }

  predicate IsEncrypted(file: Bytes) {
    |file| >= 8 && file[..8] == MAGIC
  }

  function ArchiveOf(file: Bytes, limits: Limits, keys: Keyring): Result<Bytes, Error>
    requires |file| <= MAX_INT64 as int
  {
    if IsEncrypted(file) then Decrypted(file, Guarded(limits).maxArchiveBytes, keys) else Success(file)
  }

  /** Opens the archive of a package: an encrypted one is decrypted within the guarded limit, any other is taken as it is. */
  method OpenArchive(file: Bytes, limits: Limits, keys: Keyring) returns (r: Result<Bytes, Error>)
    requires |file| <= MAX_INT64 as int
    ensures r == ArchiveOf(file, limits, keys)
  {
    var guarded := limits;
    if limits.maxArchiveBytes <= 0 || limits.maxUnpackedBytes <= 0 || limits.maxFiles <= 0 {
      guarded := DEFAULT_LIMITS;
    }
    if !IsEncrypted(file) {
      return Success(file);
    }
    r := DecryptEncryptedPackage(file, guarded.maxArchiveBytes, keys);
  }

  /** The limits that count: those given if all are positive, and otherwise 512 MiB of archive, 2 GiB unpacked and 20000 files. */
  lemma GuardedExactly(limits: Limits)
    ensures Guarded(limits)
      == if limits.maxArchiveBytes >= 1 && limits.maxUnpackedBytes >= 1 && limits.maxFiles >= 1 then limits
         else Limits(536870912, 2147483648, 20000)
  {
  }

  /** For every limits whatsoever, a file that starts with the magic is opened exactly if it is the package of a plaintext within the archive size that counts; any other is taken as it is. */
  lemma AcceptsExactly(file: Bytes, limits: Limits, keys: Keyring, p: Bytes)
    requires |file| <= MAX_INT64 as int && IdealKeys(keys)
    ensures var l := limits;
      var size := if l.maxArchiveBytes >= 1 && l.maxUnpackedBytes >= 1 && l.maxFiles >= 1 then l.maxArchiveBytes else 536870912;
      ArchiveOf(file, limits, keys) == Success(p) <==>
        if [65, 84, 82, 73, 69, 78, 67, 49] <= file then |p| <= size as int && exists h: Header :: IsPackage(file, keys, h, p)
        else p == file
  {
    hide Decrypted, IsPackage, Guarded;
    GuardedExactly(limits);
    AcceptsWithin(file, Guarded(limits).maxArchiveBytes, keys, p);
  }

  /** The bound on its own would turn away the empty package at a limit that is not positive, which the frames would accept; the guard keeps such limits out. */
  lemma GuardIsNeeded(c: Cipher, h: Header, maxPlaintext: int64, keys: Keyring)
    requires Ideal(c) && WellFormed(h) && keys(h.wrapped) == Some(c) && maxPlaintext <= 0
    ensures |h.nonce| == NONCE_SIZE && |Package(c, h, [])| <= MAX_INT64 as int
    ensures Decrypted(Package(c, h, []), maxPlaintext, keys) == Failure(TooLarge)
    ensures ReadFrames(c, h, 0, maxPlaintext as int, false, Framing(c, h, 0, [])) == Success([])
    ensures forall limits: Limits :: Guarded(limits).maxArchiveBytes != maxPlaintext
  {
    hide ReadFrames, Framing, Ideal, WellFormed, ReadHeader;
    HeaderShape(h);
    FramingLength(c, h, 0, []);
    ChunksSmall();
    ReadsExactly(c, h, 0, maxPlaintext as int, false, Framing(c, h, 0, []), []);
  }
}
