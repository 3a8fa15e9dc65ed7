/** Image sizes read from the nested boxes of an AVIF file. */
module ImageBoxes {
  import opened Wrappers
  import opened Bitwise
  import BigEndian

  type Bytes = seq<Byte>

  datatype Size = Size(width: nat, height: nat)

  const MAX_DEPTH: nat := 8

  // --- The walker ----------------------------------------------------------------------

  const FTYP: Bytes := [102, 116, 121, 112]
  const ISPE: Bytes := [105, 115, 112, 101]
  const META: Bytes := [109, 101, 116, 97]
  const AVIF: Bytes := [97, 118, 105, 102]
  const AVIS: Bytes := [97, 118, 105, 115]

  /** iprp, ipco, moov, trak, mdia, minf and stbl. */
  const CONTAINERS: seq<Bytes> := [
    [105, 112, 114, 112], [105, 112, 99, 111], [109, 111, 111, 118], [116, 114, 97, 107],
    [109, 100, 105, 97], [109, 105, 110, 102], [115, 116, 98, 108]]

  datatype Extent = Extent(size: nat, header: nat)

  /** The extent of the box at the start: a 32-bit size, a 64-bit size behind the mark one, or the whole rest behind the mark zero. */
  function IsoBoxSize(content: Bytes): (r: Option<Extent>)
    ensures r.Some? ==> 8 <= r.value.header <= r.value.size && r.value.header <= |content|
  {
    if |content| < 8 then None
    else
      var size := BigEndian.Decode(content[..4]);
      if size == 0 then Some(Extent(|content|, 8))
      else if size == 1 then
        if |content| < 16 then None
        else
          var large := BigEndian.Decode(content[8..16]);
          if large >= 16 then Some(Extent(large, 16)) else None
      else if size >= 8 then Some(Extent(size, 8)) else None
  }

  /** A box and what comes after it. */
  datatype Cut = Cut(kind: Bytes, payload: Bytes, rest: Bytes)

  function CutBox(content: Bytes): (r: Option<Cut>)
    ensures r.Some? ==> |r.value.payload| + |r.value.rest| < |content| && |r.value.kind| == 4
  {
    var extent := IsoBoxSize(content);
    if extent.None? || extent.value.size > |content| then None
    else Some(Cut(content[4..8], content[extent.value.header..extent.value.size], content[extent.value.size..]))
  }

  function IspeSize(payload: Bytes): Option<Size> {
    if |payload| < 12 then None else Some(Size(BigEndian.Decode(payload[4..8]), BigEndian.Decode(payload[8..12])))
  }

  /** The first image size among the boxes; a box that cannot be cut off ends the search on its level. */
  function Find(content: Bytes, depth: nat): Option<Size>
    decreases |content|
  {
    if depth > MAX_DEPTH || |content| < 8 then None
    else
      var cut := CutBox(content);
      if cut.None? then None
      else if cut.value.kind == ISPE then IspeSize(cut.value.payload)
      else if cut.value.kind == META && |cut.value.payload| < 4 then None
      else
        var inside :=
          if cut.value.kind == META then Find(cut.value.payload[4..], depth + 1)
          else if cut.value.kind in CONTAINERS then Find(cut.value.payload, depth + 1)
          else None;
        if inside.Some? then inside else Find(cut.value.rest, depth)
  }

  /** Walks the boxes of one level and goes into containers. */
  method FindAvifDimensions(content: Bytes, depth: nat) returns (r: Option<Size>)
    ensures r == Find(content, depth)
    decreases |content|
  {
    hide *;
    FindUnfolds(content, depth);
    if depth > MAX_DEPTH {
      return None;
    }
    var offset := 0;
    assert content[0..] == content;
    while offset + 8 <= |content|
      invariant 0 <= offset <= |content|
      invariant Find(content, depth) == Find(content[offset..], depth)
      decreases |content| - offset
    {
      CutIs(content[offset..]);
      FindUnfolds(content[offset..], depth);
      var extent := IsoBoxSize(content[offset..]);
      if extent.None? || extent.value.size > |content| - offset {
        return None;
      }
      var kind := content[offset + 4..offset + 8];
      var end := offset + extent.value.size;
      var payload := content[offset + extent.value.header..end];
      SameSlices(content, offset, extent.value);
      if kind == ISPE {
        return IspeSize(payload);
      }
      if kind == META {
        if |payload| < 4 {
          return None;
        }
        r := FindAvifDimensions(payload[4..], depth + 1);
        if r.Some? {
          return;
        }
      } else if kind in CONTAINERS {
        r := FindAvifDimensions(payload, depth + 1);
        if r.Some? {
          return;
        }
      }
      offset := end;
    }
    FindUnfolds(content[offset..], depth);
    r := None;
  }

  lemma FindUnfolds(content: Bytes, depth: nat)
    ensures Find(content, depth) ==
      if depth > MAX_DEPTH || |content| < 8 || CutBox(content).None? then None
      else
        var cut := CutBox(content).value;
        if cut.kind == ISPE then IspeSize(cut.payload)
        else if cut.kind == META then
          if |cut.payload| < 4 then None
          else
            var inside := Find(cut.payload[4..], depth + 1);
            if inside.Some? then inside else Find(cut.rest, depth)
        else
          var inside := if cut.kind in CONTAINERS then Find(cut.payload, depth + 1) else None;
          if inside.Some? then inside else Find(cut.rest, depth)
  {
    hide CutBox, ISPE, META, CONTAINERS, IspeSize;
  }

  lemma CutIs(content: Bytes)
    ensures var extent := IsoBoxSize(content);
            && (extent.Some? ==> 8 <= extent.value.header <= extent.value.size && extent.value.header <= |content|)
            && CutBox(content) == if extent.None? || extent.value.size > |content| then None
                 else Some(Cut(content[4..8], content[extent.value.header..extent.value.size], content[extent.value.size..]))
  {
    hide IsoBoxSize;
    var extent := IsoBoxSize(content);
  }

  lemma SameSlices(content: Bytes, offset: nat, extent: Extent)
    requires offset + extent.size <= |content| && 8 <= extent.header <= extent.size
    ensures content[offset..][4..8] == content[offset + 4..offset + 8]
    ensures content[offset..][extent.header..extent.size] == content[offset + extent.header..offset + extent.size]
    ensures content[offset..][extent.size..] == content[offset + extent.size..]
  {
  }

  // --- Box forests ---------------------------------------------------------------------

  /** How the size of a box is written: in 32 bits, in 64 bits, or not at all for the last box. */
  datatype Form = Short | Long | ToEnd

  /** Containers have names; other boxes have a kind of four bytes. */
  datatype Box =
    | Ispe(version: Bytes, size: Size, extra: Bytes)
    | Meta(version: Bytes, inside: Forest)
    | Container(name: string, inside: Forest)
    | Other(kind: Bytes, payload: Bytes)

  datatype Forest = Empty | Boxes(head: Box, form: Form, tail: Forest)

  /** A name as it is written: a byte for each of its characters. */
  function Code(name: string): Bytes {
    seq(|name|, i requires 0 <= i < |name| => if name[i] < '\U{0080}' then name[i] as nat else 0)
  }

  const CONTAINER_NAMES: seq<string> := ["iprp", "ipco", "moov", "trak", "mdia", "minf", "stbl"]

  function KindOf(box: Box): Bytes {
    match box
    case Ispe(_, _, _) => Code("ispe")
    case Meta(_, _) => Code("meta")
    case Container(name, _) => Code(name)
    case Other(kind, _) => kind
  }

  function Payload(box: Box): Bytes {
    match box
    case Ispe(version, size, extra) => version + BigEndian.Encode(size.width, 4) + BigEndian.Encode(size.height, 4) + extra
    case Meta(version, inside) => version + Write(inside)
    case Container(_, inside) => Write(inside)
    case Other(_, payload) => payload
  }

  function Wrap(kind: Bytes, form: Form, payload: Bytes): Bytes {
    match form
    case Short => BigEndian.Encode(8 + |payload|, 4) + kind + payload
    case Long => BigEndian.Encode(1, 4) + kind + BigEndian.Encode(16 + |payload|, 8) + payload
    case ToEnd => BigEndian.Encode(0, 4) + kind + payload
  }

  function Write(forest: Forest): Bytes {
    match forest
    case Empty => []
    case Boxes(head, form, tail) => Wrap(KindOf(head), form, Payload(head)) + Write(tail)
  }

  /** Fields have their widths and sizes fit; only a last box may leave its size open; other boxes have other kinds. */
  predicate WellFormed(forest: Forest) {
    match forest
    case Empty => true
    case Boxes(head, form, tail) =>
      WellFormedBox(head) && WellFormed(tail) && FormFits(form, Payload(head)) && (form == ToEnd ==> tail == Empty)
  }

  predicate FormFits(form: Form, payload: Bytes) {
    match form
    case Short => 8 + |payload| < BigEndian.Bound(4)
    case Long => 16 + |payload| < BigEndian.Bound(8)
    case ToEnd => true
  }

  predicate WellFormedBox(box: Box) {
    match box
    case Ispe(version, size, _) => |version| == 4 && size.width < BigEndian.Bound(4) && size.height < BigEndian.Bound(4)
    case Meta(version, inside) => |version| == 4 && WellFormed(inside)
    case Container(name, inside) => name in CONTAINER_NAMES && WellFormed(inside)
    case Other(kind, _) =>
      && |kind| == 4 && kind != Code("ispe") && kind != Code("meta")
      && forall i | 0 <= i < |CONTAINER_NAMES| :: kind != Code(CONTAINER_NAMES[i])
  }

  /** The image sizes in pre-order, with those that lie deeper than so many levels below left out. */
  function Sizes(forest: Forest, levels: nat): seq<Size> {
    match forest
    case Empty => []
    case Boxes(head, _, tail) =>
      (match head
       case Ispe(_, size, _) => [size]
       case Meta(_, f) => if levels == 0 then [] else Sizes(f, levels - 1)
       case Container(_, f) => if levels == 0 then [] else Sizes(f, levels - 1)
       case Other(_, _) => []) + Sizes(tail, levels)
  }

  function First(sizes: seq<Size>): Option<Size> {
    if sizes == [] then None else Some(sizes[0])
  }

  // --- Walking what was written --------------------------------------------------------

  lemma WrapCuts(kind: Bytes, form: Form, payload: Bytes, rest: Bytes)
    requires |kind| == 4 && FormFits(form, payload) && (form == ToEnd ==> rest == [])
    ensures CutBox(Wrap(kind, form, payload) + rest) == Some(Cut(kind, payload, rest))
    ensures |Wrap(kind, form, payload)| >= 8
  {
    hide BigEndian.Encode, BigEndian.Decode;
    var content := Wrap(kind, form, payload) + rest;
    WrapParts(kind, form, payload, rest);
    match form
    case Short => BigEndian.DecodeEncode(8 + |payload|, 4);
    case Long =>
      BigEndian.Bound4();
      BigEndian.DecodeEncode(1, 4);
      BigEndian.DecodeEncode(16 + |payload|, 8);
    case ToEnd => BigEndian.DecodeEncode(0, 4);
  }

  lemma WrapParts(kind: Bytes, form: Form, payload: Bytes, rest: Bytes)
    requires |kind| == 4
    ensures var content := Wrap(kind, form, payload) + rest;
            var header := if form == Long then 16 else 8;
            && |content| == header + |payload| + |rest|
            && content[..4] == BigEndian.Encode(if form == Short then 8 + |payload| else if form == Long then 1 else 0, 4)
            && content[4..8] == kind
            && (form == Long ==> content[8..16] == BigEndian.Encode(16 + |payload|, 8))
            && content[header..header + |payload|] == payload && content[header + |payload|..] == rest
  {
    hide BigEndian.Encode;
    EncodedLengths(payload);
    if form == Long {
      ShortParts(BigEndian.Encode(1, 4), kind, BigEndian.Encode(16 + |payload|, 8) + payload, rest);
      var content := Wrap(kind, form, payload) + rest;
      assert content == BigEndian.Encode(1, 4) + kind + (BigEndian.Encode(16 + |payload|, 8) + payload) + rest;
    } else {
      ShortParts(BigEndian.Encode(if form == Short then 8 + |payload| else 0, 4), kind, payload, rest);
    }
  }

  lemma EncodedLengths(payload: Bytes)
    ensures |BigEndian.Encode(8 + |payload|, 4)| == |BigEndian.Encode(1, 4)| == |BigEndian.Encode(0, 4)| == 4
    ensures |BigEndian.Encode(16 + |payload|, 8)| == 8
  {
    hide BigEndian.Encode;
    BigEndian.EncodedLength(8 + |payload|, 4);
    BigEndian.EncodedLength(1, 4);
    BigEndian.EncodedLength(0, 4);
    BigEndian.EncodedLength(16 + |payload|, 8);
  }

  lemma ShortParts(size: Bytes, kind: Bytes, payload: Bytes, rest: Bytes)
    requires |size| == 4 && |kind| == 4
    ensures var content := size + kind + payload + rest;
            && |content| == 8 + |payload| + |rest| && content[..4] == size && content[4..8] == kind
            && content[8..8 + |payload|] == payload && content[8 + |payload|..] == rest
  {
  }

  lemma KindLength(box: Box)
    requires WellFormedBox(box)
    ensures |KindOf(box)| == 4
  {
  }

  lemma IspeReads(version: Bytes, size: Size, extra: Bytes)
    requires WellFormedBox(Ispe(version, size, extra))
    ensures IspeSize(Payload(Ispe(version, size, extra))) == Some(size)
  {
    var payload := Payload(Ispe(version, size, extra));
    assert payload[4..8] == BigEndian.Encode(size.width, 4) && payload[8..12] == BigEndian.Encode(size.height, 4);
    BigEndian.DecodeEncode(size.width, 4);
    BigEndian.DecodeEncode(size.height, 4);
  }

  /** The walker's kinds are the written names. */
  lemma Kinds()
    ensures Code("ispe") == ISPE && Code("meta") == META && ISPE != META
    ensures |CONTAINERS| == |CONTAINER_NAMES| && forall i | 0 <= i < |CONTAINER_NAMES| :: Code(CONTAINER_NAMES[i]) == CONTAINERS[i]
    ensures ISPE !in CONTAINERS && META !in CONTAINERS
  {
    Letters();
    assert ISPE[0] != META[0];
    assert forall i | 0 <= i < |CONTAINERS| :: CONTAINERS[i][0] != META[0] || CONTAINERS[i][1] != META[1];
    assert forall i | 0 <= i < |CONTAINERS| :: CONTAINERS[i][0] != ISPE[0] || CONTAINERS[i][1] != ISPE[1];
  }

  lemma Letters()
    ensures Code("ispe") == ISPE && Code("meta") == META
    ensures Code("iprp") == CONTAINERS[0] && Code("ipco") == CONTAINERS[1] && Code("moov") == CONTAINERS[2] && Code("trak") == CONTAINERS[3]
    ensures Code("mdia") == CONTAINERS[4] && Code("minf") == CONTAINERS[5] && Code("stbl") == CONTAINERS[6]
  {
  }

  lemma FirstOf(a: seq<Size>, b: seq<Size>)
    ensures First([]) == None
    ensures First(a + b) == if a == [] then First(b) else First(a)
    ensures First(a).Some? <==> a != []
  {
    assert a == [] ==> a + b == b;
  }

  lemma FindNothing(content: Bytes, depth: nat)
    ensures depth > 8 || content == [] ==> Find(content, depth) == None
  {
  }

  /** One box of a forest: an image size, something to look into, or something to pass over. */
  lemma FindsInBox(head: Box, form: Form, tail: Forest, depth: nat)
    requires WellFormed(Boxes(head, form, tail)) && depth <= 8
    ensures Find(Write(Boxes(head, form, tail)), depth) ==
      match head
      case Ispe(_, size, _) => Some(size)
      case Meta(_, inside) => if Find(Write(inside), depth + 1).Some? then Find(Write(inside), depth + 1) else Find(Write(tail), depth)
      case Container(_, inside) => if Find(Write(inside), depth + 1).Some? then Find(Write(inside), depth + 1) else Find(Write(tail), depth)
      case Other(_, _) => Find(Write(tail), depth)
  {
    hide CutBox, IsoBoxSize, Wrap, Payload, IspeSize, FormFits, CONTAINERS, CONTAINER_NAMES, ISPE, META, Code, Find;
    var forest := Boxes(head, form, tail);
    Kinds();
    KindLength(head);
    WrapCuts(KindOf(head), form, Payload(head), if form == ToEnd then [] else Write(tail));
    FindUnfolds(Write(forest), depth);
    match head
    case Ispe(version, size, extra) => IspeReads(version, size, extra);
    case Meta(version, inside) => MetaPayload(version, inside);
    case Container(name, inside) =>
      ContainerPayload(name, inside);
      ContainerKind(name);
    case Other(kind, _) => OtherKind(kind);
  }

  /** On the bytes of any forest, the walker finds the first image size in pre-order among those at most eight levels deep. */
  lemma {:induction false} FindsFirst(forest: Forest, depth: nat)
    requires WellFormed(forest) && depth <= 8
    ensures Find(Write(forest), depth) == First(Sizes(forest, 8 - depth))
  {
    hide Find, First, FormFits, KindOf, Payload, Wrap, CONTAINER_NAMES, Code;
    FindNothing(Write(forest), depth);
    if forest.Empty? {
      FirstOf([], []);
    } else {
      var head, levels := forest.head, 8 - depth;
      FindsInBox(head, forest.form, forest.tail, depth);
      FindsFirst(forest.tail, depth);
      match head
      case Ispe(_, size, _) =>
        FirstOf([size], Sizes(forest.tail, levels));
        FirstOfOne(size);
      case Meta(_, inside) =>
        FindNothing(Write(inside), depth + 1);
        if depth < 8 {
          FindsFirst(inside, depth + 1);
        }
        FirstOf(if depth < 8 then Sizes(inside, levels - 1) else [], Sizes(forest.tail, levels));
      case Container(_, inside) =>
        FindNothing(Write(inside), depth + 1);
        if depth < 8 {
          FindsFirst(inside, depth + 1);
        }
        FirstOf(if depth < 8 then Sizes(inside, levels - 1) else [], Sizes(forest.tail, levels));
      case Other(_, _) => FirstOf([], Sizes(forest.tail, levels));
    }
  }

  lemma FirstOfOne(size: Size)
    ensures First([size]) == Some(size)
  {
  }

  lemma ContainerKind(name: string)
    requires name in CONTAINER_NAMES
    ensures Code(name) in CONTAINERS
  {
    hide CONTAINERS, CONTAINER_NAMES, Code;
    Kinds();
    var i :| 0 <= i < |CONTAINER_NAMES| && CONTAINER_NAMES[i] == name;
    assert CONTAINERS[i] == Code(name);
  }

  lemma OtherKind(kind: Bytes)
    requires forall i | 0 <= i < |CONTAINER_NAMES| :: kind != Code(CONTAINER_NAMES[i])
    ensures kind !in CONTAINERS
  {
    hide CONTAINERS, CONTAINER_NAMES, Code;
    Kinds();
    forall i | 0 <= i < |CONTAINERS|
      ensures CONTAINERS[i] != kind
    {
      assert Code(CONTAINER_NAMES[i]) == CONTAINERS[i];
    }
  }

  lemma MetaPayload(version: Bytes, inside: Forest)
    requires |version| == 4
    ensures |Payload(Meta(version, inside))| >= 4 && Payload(Meta(version, inside))[4..] == Write(inside)
  {
    hide Write;
  }

  lemma ContainerPayload(name: string, inside: Forest)
    ensures Payload(Container(name, inside)) == Write(inside)
  {
    hide Write;
  }

  // --- A whole file --------------------------------------------------------------------

  predicate IsBrand(b: Bytes) {
    b == AVIF || b == AVIS
  }

  /** The major brand, or one of the compatible brands after the version. */
  predicate ContainsAvifBrand(ftyp: Bytes) {
    |ftyp| >= 4 && (IsBrand(ftyp[..4]) || BrandFrom(ftyp, 8))
  }

  predicate BrandFrom(ftyp: Bytes, offset: nat)
    decreases |ftyp| - offset
  {
    offset + 4 <= |ftyp| && (IsBrand(ftyp[offset..offset + 4]) || BrandFrom(ftyp, offset + 4))
  }

  /** The image size of an AVIF file: it must start with a box that names the brand. */
  function AvifDimensions(content: Bytes): Option<Size> {
    if |content| < 16 then None
    else
      var cut := CutBox(content);
      if cut.None? || cut.value.kind != FTYP || |cut.value.payload| < 8 || !ContainsAvifBrand(cut.value.payload) then None
      else Find(content, 0)
  }

  lemma FileTypeIsOther()
    ensures Code("ftyp") == FTYP && |FTYP| == 4 && FTYP != ISPE && FTYP != META && FTYP !in CONTAINERS
  {
    assert FTYP[0] != ISPE[0] && FTYP[0] != META[0];
    assert forall kind | kind in CONTAINERS :: kind[0] != FTYP[0];
  }

  /** The brand in one place of a file-type box. */
  predicate BrandAt(ftyp: Bytes, k: nat) {
    4 * k + 4 <= |ftyp| && (ftyp[4 * k..4 * k + 4] == Code("avif") || ftyp[4 * k..4 * k + 4] == Code("avis"))
  }

  /** The major brand comes first, then four bytes of version, then the compatible brands. */
  ghost predicate NamesBrand(ftyp: Bytes) {
    exists k: nat :: k != 1 && BrandAt(ftyp, k)
  }

  lemma BrandCodes()
    ensures Code("avif") == AVIF && Code("avis") == AVIS
  {
  }

  lemma {:induction false} BrandFromExactly(ftyp: Bytes, k: nat)
    ensures BrandFrom(ftyp, 4 * k) <==> exists n: nat :: n >= k && BrandAt(ftyp, n)
    decreases |ftyp| - 4 * k
  {
    hide Code, AVIF, AVIS;
    BrandCodes();
    if 4 * k + 4 <= |ftyp| {
      BrandFromExactly(ftyp, k + 1);
      assert BrandFrom(ftyp, 4 * k) <==> BrandAt(ftyp, k) || BrandFrom(ftyp, 4 * k + 4);
    }
  }

  lemma BrandsExactly(ftyp: Bytes)
    ensures ContainsAvifBrand(ftyp) <==> NamesBrand(ftyp)
  {
    hide Code, AVIF, AVIS, BrandFrom;
    BrandCodes();
    BrandFromExactly(ftyp, 2);
    assert BrandAt(ftyp, 0) <==> |ftyp| >= 4 && IsBrand(ftyp[..4]);
  }

  /** A file made of a file-type box and a forest has the size its first image size box gives, if the file-type box names the brand, and none if not. */
  lemma AvifFile(brands: Bytes, form: Form, forest: Forest)
    requires |brands| >= 8 && WellFormed(forest) && FormFits(form, brands) && form != ToEnd
    ensures AvifDimensions(Write(Boxes(Other(Code("ftyp"), brands), form, forest)))
      == if NamesBrand(brands) then First(Sizes(forest, 8)) else None
  {
    hide CutBox, IsoBoxSize, Wrap, FormFits, CONTAINERS, CONTAINER_NAMES, ISPE, META, FTYP, ContainsAvifBrand, NamesBrand, Code;
    var file := Boxes(Other(FTYP, brands), form, forest);
    FileTypeIsOther();
    Kinds();
    WrapCuts(FTYP, form, brands, Write(forest));
    FindsFirst(file, 0);
    WrapLength(FTYP, form, brands);
    BrandsExactly(brands);
    assert [] + Sizes(forest, 8) == Sizes(forest, 8);
  }

  /** The boxes of a still picture: the size among the properties of an item in the metadata, and then the media data. */
  function StillPicture(version: Bytes, size: Size, data: Bytes): Forest {
    var sizes := Boxes(Ispe(version, size, []), Short, Empty);
    var properties := Boxes(Container("ipco", sizes), Short, Empty);
    Boxes(Meta(version, Boxes(Container("iprp", properties), Short, Empty)), Short, Boxes(Other(Code("mdat"), data), ToEnd, Empty))
  }

  lemma MediaDataIsOther(data: Bytes)
    ensures WellFormedBox(Other(Code("mdat"), data))
    ensures "iprp" in CONTAINER_NAMES && "ipco" in CONTAINER_NAMES
  {
    assert Code("mdat")[3] == 116 && Code("ispe")[3] == 101 && Code("meta")[3] == 97;
    assert forall i | 0 <= i < |CONTAINER_NAMES| :: Code(CONTAINER_NAMES[i])[3] != 116;
    assert CONTAINER_NAMES[0] == "iprp" && CONTAINER_NAMES[1] == "ipco";
  }

  /** A single box in the short form. */
  lemma ShortBox(head: Box)
    requires WellFormedBox(head) && |Payload(head)| < 1000
    ensures WellFormed(Boxes(head, Short, Empty)) && |Write(Boxes(head, Short, Empty))| == 8 + |Payload(head)|
  {
    hide Payload, WellFormedBox, Code, BigEndian.Encode;
    KindLength(head);
    WrapParts(KindOf(head), Short, Payload(head), []);
    BigEndian.Bound4();
    assert Wrap(KindOf(head), Short, Payload(head)) + [] == Write(Boxes(head, Short, Empty));
  }

  lemma StillPictureIsWellFormed(version: Bytes, size: Size, data: Bytes)
    requires |version| == 4 && size.width < 0x1_0000_0000 && size.height < 0x1_0000_0000
    ensures WellFormed(StillPicture(version, size, data)) && Sizes(StillPicture(version, size, data), 8) == [size]
  {
    hide Code, Wrap, CONTAINER_NAMES, BigEndian.Encode;
    MediaDataIsOther(data);
    BigEndian.Bound4();
    EncodedLengths([]);
    var ispe := Ispe(version, size, []);
    BigEndian.EncodedLength(size.width, 4);
    BigEndian.EncodedLength(size.height, 4);
    ShortBox(ispe);
    var ipco := Container("ipco", Boxes(ispe, Short, Empty));
    ShortBox(ipco);
    var iprp := Container("iprp", Boxes(ipco, Short, Empty));
    ShortBox(iprp);
    var meta := Meta(version, Boxes(iprp, Short, Empty));
    ShortBox(meta);
    assert Sizes(Boxes(ispe, Short, Empty), 5) == [size];
    assert Sizes(Boxes(ipco, Short, Empty), 6) == [size];
    assert Sizes(Boxes(iprp, Short, Empty), 7) == [size];
    assert Sizes(Boxes(Other(Code("mdat"), data), ToEnd, Empty), 8) == [];
  }

  /** Every size that can be written is read back from a still picture. */
  lemma StillPictureIsMeasured(version: Bytes, size: Size, data: Bytes)
    requires |version| == 4 && size.width < 0x1_0000_0000 && size.height < 0x1_0000_0000
    ensures AvifDimensions(Write(Boxes(Other(Code("ftyp"), Code("avif") + version), Short, StillPicture(version, size, data)))) == Some(size)
  {
    hide Code, Write, WellFormed, Sizes, StillPicture, AvifDimensions;
    var brands := Code("avif") + version;
    StillPictureIsWellFormed(version, size, data);
    BrandCodes();
    assert brands[4 * 0..4 * 0 + 4] == Code("avif");
    assert BrandAt(brands, 0);
    BigEndian.Bound4();
    FirstOfOne(size);
    AvifFile(brands, Short, StillPicture(version, size, data));
  }

  /** A file is measured only if it starts with a file-type box that names the brand. */
  lemma OnlyAvif(content: Bytes)
    requires AvifDimensions(content).Some?
    ensures CutBox(content).Some? && CutBox(content).value.kind == Code("ftyp") && NamesBrand(CutBox(content).value.payload)
    ensures AvifDimensions(content) == Find(content, 0)
  {
    hide CutBox, ContainsAvifBrand, NamesBrand, Code, FTYP, CONTAINERS, ISPE, META;
    FileTypeIsOther();
    BrandsExactly(CutBox(content).value.payload);
  }

  lemma WrapLength(kind: Bytes, form: Form, payload: Bytes)
    requires |kind| == 4
    ensures |Wrap(kind, form, payload)| >= 8 + |payload|
  {
    hide BigEndian.Encode;
    EncodedLengths(payload);
  }

  // --- The size limit ------------------------------------------------------------------

  /** Both sides positive and at most 16384 pixels, and at most forty million pixels in all, compared by division. */
  predicate ValidGameCoverDimensions(size: Size) {
    0 < size.width <= 16384 && 0 < size.height <= 16384 && size.width <= 40000000 / size.height
  }

  /** The division compares the exact product. */
  lemma DimensionsBoundProduct(size: Size)
    ensures ValidGameCoverDimensions(size) <==> 0 < size.width <= 16384 && 0 < size.height <= 16384 && size.width * size.height <= 40000000
  {
    if size.height > 0 {
      var q := 40000000 / size.height;
      assert q * size.height <= 40000000 < (q + 1) * size.height;
      if size.width <= q {
        MonotoneProduct(size.width, q, size.height);
      } else {
        MonotoneProduct(q + 1, size.width, size.height);
      }
    }
  }

  lemma MonotoneProduct(a: nat, b: nat, c: nat)
    requires a <= b
    ensures a * c <= b * c
  {
  }
}
