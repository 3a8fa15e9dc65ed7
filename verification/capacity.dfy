/** How many modules each version leaves for data, and how the codewords are divided into blocks. */
module Capacity {
  import opened Bch
  import opened BitStream
  import opened Template
  import opened Placement
  import opened Interleaving

  /** Data codewords at level M, versions 1 to 10. */
  function DataCodewords(version: nat): nat
    requires 1 <= version <= 10
  {
    [16, 28, 44, 64, 86, 108, 124, 154, 182, 216][version - 1]
  }

  function EcPerBlock(version: nat): nat
    requires 1 <= version <= 10
  {
    [10, 16, 26, 18, 24, 16, 18, 22, 22, 26][version - 1]
  }

  /** Groups of blocks of equal length: how many, and how long. */
  function BlockSpec(version: nat): seq<(nat, nat)>
    requires 1 <= version <= 10
  {
    [[(1, 16)], [(1, 28)], [(1, 44)], [(2, 32)], [(2, 43)], [(4, 27)], [(4, 31)],
     [(2, 38), (2, 39)], [(3, 36), (2, 37)], [(4, 43), (1, 44)]][version - 1]
  }

  function Repeat(n: nat, length: nat): (lengths: seq<nat>)
    ensures |lengths| == n
  {
    seq(n, _ => length)
  }

  /** The lengths of all blocks, in order. */
  function BlockLengths(spec: seq<(nat, nat)>): seq<nat> {
    if spec == [] then [] else Repeat(spec[0].0, spec[0].1) + BlockLengths(spec[1..])
  }

  function VersionLengths(version: nat): seq<nat>
    requires 1 <= version <= 10
  {
    BlockLengths(BlockSpec(version))
  }

  function LongestBlock(version: nat): nat
    requires 1 <= version <= 10
  {
    Longest(VersionLengths(version))
  }

  function CountBits(version: nat): nat {
    if version < 10 then 8 else 16
  }

  predicate Fits(bytes: nat, version: nat)
    requires 1 <= version <= 10
  {
    4 + CountBits(version) + 8 * bytes <= 8 * DataCodewords(version)
  }

  lemma Times(n: nat, k: nat)
    requires n > 0
    ensures n * k == (n - 1) * k + k
  {}

  lemma {:induction false} TotalRepeat(n: nat, length: nat, rest: seq<nat>)
    ensures Total(Repeat(n, length) + rest) == n * length + Total(rest)
  {
    if n == 0 {
      assert Repeat(0, length) + rest == rest;
    } else {
      assert Repeat(n, length) + rest == [length] + (Repeat(n - 1, length) + rest);
      hide *;
      TotalRepeat(n - 1, length, rest);
      TotalCons(length, Repeat(n - 1, length) + rest);
      Times(n, length);
    }
  }

  /** The blocks take up exactly the data codewords. */
  lemma LengthsTotal(version: nat)
    requires 1 <= version <= 10
    ensures Total(VersionLengths(version)) == DataCodewords(version)
    ensures forall l: nat | l in VersionLengths(version) :: l <= LongestBlock(version)
  {
    var spec := BlockSpec(version);
    var tail: seq<(nat, nat)> := spec[1..];
    if |spec| == 2 {
      var none: seq<(nat, nat)> := tail[1..];
      assert none == [];
      assert BlockLengths(tail) == Repeat(tail[0].0, tail[0].1) + [];
      TotalRepeat(tail[0].0, tail[0].1, []);
    } else {
      assert tail == [];
    }
    TotalRepeat(spec[0].0, spec[0].1, BlockLengths(tail));
  }

  // --- Counting free modules ----------------------------------------------------------

  /** Rows r0 to r0 + height and columns c0 to c0 + width, upper ends excluded. */
  datatype Rect = Rect(r0: nat, height: nat, c0: nat, width: nat)

  predicate In(p: Pos, r: Rect) {
    r.r0 <= p.row < r.r0 + r.height && r.c0 <= p.col < r.c0 + r.width
  }

  ghost function RowModules(row: nat, c0: nat, width: nat): set<Pos> {
    set c: nat | c0 <= c < c0 + width :: Pos(row, c)
  }

  lemma {:induction false} RowCount(row: nat, c0: nat, width: nat)
    ensures |RowModules(row, c0, width)| == width
  {
    if width > 0 {
      RowCount(row, c0, width - 1);
      assert RowModules(row, c0, width) == RowModules(row, c0, width - 1) + {Pos(row, c0 + width - 1)};
    }
  }

  ghost function Modules(r: Rect): set<Pos>
    ensures forall p: Pos :: p in Modules(r) <==> In(p, r)
    decreases r.height
  {
    if r.height == 0 then {} else Modules(r.(height := r.height - 1)) + RowModules(r.r0 + r.height - 1, r.c0, r.width)
  }

  lemma DisjointCount<T>(a: set<T>, b: set<T>)
    requires a !! b
    ensures |a + b| == |a| + |b|
  {}

  lemma ModulesUnfold(r0: nat, height: nat, c0: nat, width: nat)
    ensures Modules(Rect(r0, 0, c0, width)) == {}
    ensures height > 0 ==>
      var above, last := Modules(Rect(r0, height - 1, c0, width)), RowModules(r0 + height - 1, c0, width);
      Modules(Rect(r0, height, c0, width)) == above + last && above !! last
  {}

  lemma {:induction false} RectCount(r0: nat, height: nat, c0: nat, width: nat)
    ensures |Modules(Rect(r0, height, c0, width))| == height * width
  {
    hide *;
    ModulesUnfold(r0, height, c0, width);
    if height > 0 {
      RectCount(r0, height - 1, c0, width);
      RowCount(r0 + height - 1, c0, width);
      DisjointCount(Modules(Rect(r0, height - 1, c0, width)), RowModules(r0 + height - 1, c0, width));
      Times(height, width);
    }
  }

  /** Adds a rectangle that does not meet the modules collected so far. */
  lemma Join(s: set<Pos>, r: Rect) returns (t: set<Pos>)
    requires forall p | p in s :: !In(p, r)
    ensures |t| == |s| + r.height * r.width
    ensures forall p: Pos :: p in t <==> p in s || In(p, r)
  {
    t := s + Modules(r);
    assert s !! Modules(r);
    hide *;
    RectCount(r.r0, r.height, r.c0, r.width);
    DisjointCount(s, Modules(r));
  }

  predicate Visited(version: nat, p: Pos) {
    p.row < SizeOf(version) && p.col < SizeOf(version) && p.col != 6
  }

  /** Finder and timing patterns and format strips, outside column 6. */
  predicate CommonlyReserved(n: nat, p: Pos) {
    var r, c := p.row, p.col;
    c < n && r < n && c != 6 && (OnFinder(n, r, c) || OnTiming(n, r, c) || OnFormatStrip(n, r, c))
  }

  lemma CountCommon(n: nat) returns (s: set<Pos>)
    requires n >= 21
    ensures |s| == 193 + n
    ensures forall p: Pos :: p in s <==> CommonlyReserved(n, p)
  {
    s := {};
    s := Join(s, Rect(0, 9, 0, 6));
    s := Join(s, Rect(0, 9, 7, 2));
    s := Join(s, Rect(0, 8, n - 8, 8));
    s := Join(s, Rect(8, 1, n - 9, 9));
    s := Join(s, Rect(6, 1, 9, n - 17));
    s := Join(s, Rect(n - 8, 8, 0, 6));
    s := Join(s, Rect(n - 8, 8, 7, 2));
    s := Join(s, Rect(n - 9, 1, 8, 1));
  }

  lemma ReservedParts(version: nat, p: Pos)
    requires 1 <= version <= 10
    ensures Visited(version, p) && TemplateAt(version, p.row, p.col) != 0 <==>
      || CommonlyReserved(SizeOf(version), p)
      || OnAlignment(version, p.row, p.col)
      || OnVersionInfo(version, p.row, p.col)
  {
    hide BitAt, VersionBits;
  }

  lemma CountAlignments(version: nat, common: set<Pos>) returns (s: set<Pos>)
    requires 1 <= version <= 10
    requires forall p: Pos :: p in common <==> CommonlyReserved(SizeOf(version), p)
    ensures |s| == |common| + if version == 1 then 0 else if version < 7 then 25 else 100
    ensures forall p: Pos :: p in s <==> CommonlyReserved(SizeOf(version), p) || OnAlignment(version, p.row, p.col)
  {
    var n, mid := SizeOf(version), 2 * version + 8;
    s := common;
    if version >= 2 {
      s := Join(s, Rect(n - 9, 5, n - 9, 5));
    }
    if version >= 7 {
      s := Join(s, Rect(mid - 2, 5, mid - 2, 5));
      s := Join(s, Rect(mid - 2, 5, n - 9, 5));
      s := Join(s, Rect(n - 9, 5, mid - 2, 5));
    }
  }

  lemma CountVersionInfo(version: nat, patterns: set<Pos>) returns (s: set<Pos>)
    requires 7 <= version <= 10
    requires forall p: Pos :: p in patterns <==> CommonlyReserved(SizeOf(version), p) || OnAlignment(version, p.row, p.col)
    ensures |s| == |patterns| + 36
    ensures forall p: Pos :: p in s <==>
      CommonlyReserved(SizeOf(version), p) || OnAlignment(version, p.row, p.col) || OnVersionInfo(version, p.row, p.col)
  {
    var n := SizeOf(version);
    s := Join(patterns, Rect(0, 6, n - 11, 3));
    s := Join(s, Rect(n - 11, 3, 0, 6));
  }

  /** The function modules outside column 6. */
  lemma CountReserved(version: nat) returns (s: set<Pos>)
    requires 1 <= version <= 10
    ensures |s| == 193 + SizeOf(version) + if version == 1 then 0 else if version < 7 then 25 else 136
    ensures forall p: Pos :: p in s <==> Visited(version, p) && TemplateAt(version, p.row, p.col) != 0
  {
    assert version < 7 ==> forall p: Pos :: !OnVersionInfo(version, p.row, p.col);
    assert SizeOf(version) >= 21;
    hide *;
    s := CountCommon(SizeOf(version));
    s := CountAlignments(version, s);
    if version >= 7 {
      s := CountVersionInfo(version, s);
    }
    forall p: Pos
      ensures p in s <==> Visited(version, p) && TemplateAt(version, p.row, p.col) != 0
    {
      ReservedParts(version, p);
    }
  }

  ghost function Elements(order: Order): set<Pos> {
    set p | p in order
  }

  lemma {:induction false} ElementsCount(order: Order)
    requires NoRepeats(order)
    ensures |Elements(order)| == |order|
  {
    if order != [] {
      var n := |order| - 1;
      ElementsCount(order[..n]);
      assert order == order[..n] + [order[n]];
      assert Elements(order) == Elements(order[..n]) + {order[n]};
    }
  }

  lemma {:induction false} ZigzagFromLength(size: nat, col: int, upward: bool)
    requires (col >= 6 && col % 2 == 0) || (-1 <= col <= 5 && col % 2 == 1)
    ensures |ZigzagFrom(size, col, upward)| == size * (if col >= 6 then col else col + 1)
    decreases col
  {
    if col > 0 {
      ZigzagFromUnfold(size, col, upward);
      ZigzagFromLength(size, if col == 6 then 3 else col - 2, !upward);
    } else {
      assert ZigzagFrom(size, col, upward) == [];
    }
  }

  /** The template as a grid. */
  function TemplateGrid(version: nat): Grid {
    (r: nat, c: nat) => if 1 <= version <= 10 then TemplateAt(version, r, c) else 0
  }

  /** The free modules of a version, in the order in which they take bits. */
  function FreeOrder(version: nat): Order {
    Free(Zigzag(SizeOf(version)), TemplateGrid(version))
  }

  function FreeModules(version: nat): nat
    requires 1 <= version <= 10
  {
    [206, 357, 565, 805, 1077, 1381, 1606, 1974, 2374, 2806][version - 1]
  }

  function TotalCodewords(version: nat): nat
    requires 1 <= version <= 10
  {
    DataCodewords(version) + |VersionLengths(version)| * EcPerBlock(version)
  }

  lemma ZigzagLength(version: nat)
    requires 1 <= version <= 10
    ensures |Zigzag(SizeOf(version))| == FreeModules(version) + 193 + SizeOf(version)
      + if version == 1 then 0 else if version < 7 then 25 else 136
  {
    hide ZigzagFrom;
    assert SizeOf(version) - 1 == 2 * (2 * version + 8);
    ZigzagFromLength(SizeOf(version), SizeOf(version) - 1, true);
  }

  lemma FreeOrderMembers(version: nat)
    requires 1 <= version <= 10
    ensures NoRepeats(FreeOrder(version)) && NoRepeats(Zigzag(SizeOf(version)))
    ensures forall p: Pos :: p in Zigzag(SizeOf(version)) <==> Visited(version, p)
    ensures forall p: Pos :: p in FreeOrder(version) <==> Visited(version, p) && TemplateAt(version, p.row, p.col) == 0
  {
    hide Zigzag, Free, NoRepeats, TemplateAt;
    ZigzagVisits(version);
    FreeMembers(Zigzag(SizeOf(version)), TemplateGrid(version));
  }

  /** The number of free modules of each version. */
  lemma FreeCount(version: nat)
    requires 1 <= version <= 10
    ensures |FreeOrder(version)| == FreeModules(version)
  {
    var order, free := Zigzag(SizeOf(version)), FreeOrder(version);
    hide *;
    var reserved := CountReserved(version);
    ZigzagLength(version);
    FreeOrderMembers(version);
    ElementsCount(order);
    ElementsCount(free);
    assert Elements(order) == Elements(free) + reserved && Elements(free) !! reserved by {
      InElements(order);
      InElements(free);
    }
    DisjointCount(Elements(free), reserved);
  }

  lemma InElements(order: Order)
    ensures forall p: Pos :: p in Elements(order) <==> p in order
  {}

  /** Every version has room for its data; all but version 1 for its error correction too, and that one falls two bits short. */
  lemma RoomForCodewords(version: nat)
    requires 1 <= version <= 10
    ensures 8 * DataCodewords(version) <= FreeModules(version)
    ensures version > 1 ==> 8 * TotalCodewords(version) <= FreeModules(version)
    ensures version == 1 ==> 8 * TotalCodewords(version) == FreeModules(version) + 2
  {
    LengthsCount(version);
  }

  lemma LengthsCount(version: nat)
    requires 1 <= version <= 10
    ensures |VersionLengths(version)| == [1, 1, 1, 2, 2, 4, 4, 4, 5, 5][version - 1]
  {
    var spec := BlockSpec(version);
    var tail: seq<(nat, nat)> := spec[1..];
    if |spec| == 2 {
      var none: seq<(nat, nat)> := tail[1..];
      assert none == [];
      assert BlockLengths(tail) == Repeat(tail[0].0, tail[0].1) + [];
    } else {
      assert tail == [];
    }
  }
}
