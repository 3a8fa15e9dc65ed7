/** Placing data bits along the zigzag, masking them, and writing the format information. */
module Placement {
  import opened Bitwise
  import opened BitStream
  import opened Template

  datatype Pos = Pos(row: nat, col: nat)

  type Order = seq<Pos>

  /** The order in which a two-module-wide column pair is visited. */
  function Strip(size: nat, col: nat, upward: bool): (s: Order)
    requires col >= 1
    ensures |s| == 2 * size
  {
    seq(2 * size, t requires 0 <= t < 2 * size => Pos(if upward then size - 1 - t / 2 else t / 2, col - t % 2))
  }

  /** The visiting order from a column leftwards; column 6 is stepped over. */
  function ZigzagFrom(size: nat, col: int, upward: bool): Order
    decreases col
  {
    if col <= 0 then []
    else
      var c := if col == 6 then 5 else col;
      Strip(size, c, upward) + ZigzagFrom(size, c - 2, !upward)
  }

  function Zigzag(size: nat): Order {
    ZigzagFrom(size, size - 1, true)
  }

  predicate NoRepeats(order: Order) {
    forall i, k | 0 <= i < k < |order| :: order[i] != order[k]
  }

  lemma StripMembers(size: nat, col: nat, upward: bool)
    requires col >= 1
    ensures NoRepeats(Strip(size, col, upward))
    ensures forall p: Pos :: p in Strip(size, col, upward) <==> p.row < size && col - 1 <= p.col <= col
  {
    var s := Strip(size, col, upward);
    forall p: Pos | p.row < size && col - 1 <= p.col <= col
      ensures p in s
    {
      var t := 2 * (if upward then size - 1 - p.row else p.row) + (col - p.col);
      assert t / 2 == (if upward then size - 1 - p.row else p.row) && t % 2 == col - p.col;
      assert s[t] == p;
    }
    forall i, k | 0 <= i < k < |s|
      ensures s[i] != s[k]
    {
      assert i == 2 * (i / 2) + i % 2 && k == 2 * (k / 2) + k % 2;
    }
  }

  lemma InConcat(a: Order, b: Order, p: Pos)
    ensures p in a + b <==> p in a || p in b
  {}

  lemma {:induction false} ZigzagMember(size: nat, col: int, upward: bool, p: Pos)
    requires (col >= 6 && col % 2 == 0) || (-1 <= col <= 5 && col % 2 == 1)
    ensures p in ZigzagFrom(size, col, upward) <==> p.row < size && p.col <= col && p.col != 6
    decreases col
  {
    if col <= 0 {
      assert ZigzagFrom(size, col, upward) == [];
    } else {
      ZigzagFromUnfold(size, col, upward);
      hide *;
      var c := if col == 6 then 5 else col;
      InConcat(Strip(size, c, upward), ZigzagFrom(size, c - 2, !upward), p);
      StripMember(size, c, upward, p);
      ZigzagMember(size, c - 2, !upward, p);
    }
  }

  lemma StripMember(size: nat, col: nat, upward: bool, p: Pos)
    requires col >= 1
    ensures p in Strip(size, col, upward) <==> p.row < size && col - 1 <= p.col <= col
  {
    hide *;
    StripMembers(size, col, upward);
  }

  lemma {:induction false} ZigzagNoRepeats(size: nat, col: int, upward: bool)
    requires (col >= 6 && col % 2 == 0) || (-1 <= col <= 5 && col % 2 == 1)
    ensures NoRepeats(ZigzagFrom(size, col, upward))
    decreases col
  {
    if col <= 0 {
      assert ZigzagFrom(size, col, upward) == [];
    } else {
      ZigzagFromUnfold(size, col, upward);
      hide *;
      var c := if col == 6 then 5 else col;
      var strip, rest := Strip(size, c, upward), ZigzagFrom(size, c - 2, !upward);
      StripMembers(size, c, upward);
      ZigzagNoRepeats(size, c - 2, !upward);
      forall p: Pos
        ensures !(p in strip && p in rest)
      {
        StripMember(size, c, upward, p);
        ZigzagMember(size, c - 2, !upward, p);
      }
      NoRepeatsConcat(strip, rest);
    }
  }

  /** From an even column above 6, or an odd one below it, every module to the left is visited once, except in column 6. */
  lemma ZigzagFromVisits(size: nat, col: int, upward: bool)
    requires (col >= 6 && col % 2 == 0) || (-1 <= col <= 5 && col % 2 == 1)
    ensures NoRepeats(ZigzagFrom(size, col, upward))
    ensures forall p: Pos :: p in ZigzagFrom(size, col, upward) <==> p.row < size && p.col <= col && p.col != 6
  {
    hide *;
    ZigzagNoRepeats(size, col, upward);
    forall p: Pos
      ensures p in ZigzagFrom(size, col, upward) <==> p.row < size && p.col <= col && p.col != 6
    {
      ZigzagMember(size, col, upward, p);
    }
  }

  lemma ZigzagFromUnfold(size: nat, col: int, upward: bool)
    requires col > 0
    ensures ZigzagFrom(size, col, upward) ==
      Strip(size, if col == 6 then 5 else col, upward) + ZigzagFrom(size, if col == 6 then 3 else col - 2, !upward)
  {}

  lemma NoRepeatsConcat(a: Order, b: Order)
    requires NoRepeats(a) && NoRepeats(b)
    requires forall p: Pos :: !(p in a && p in b)
    ensures NoRepeats(a + b)
  {
    var all := a + b;
    forall i, k | 0 <= i < k < |all|
      ensures all[i] != all[k]
    {
      if i < |a| <= k {
        assert a[i] in a && b[k - |a|] in b;
      }
    }
  }

  /** The zigzag of a symbol visits every module outside column 6 exactly once. */
  lemma ZigzagVisits(version: nat)
    requires version >= 1
    ensures NoRepeats(Zigzag(SizeOf(version)))
    ensures forall p: Pos :: p in Zigzag(SizeOf(version)) <==>
      p.row < SizeOf(version) && p.col < SizeOf(version) && p.col != 6
  {
    assert Zigzag(SizeOf(version)) == ZigzagFrom(SizeOf(version), SizeOf(version) - 1, true);
    hide ZigzagFrom, NoRepeats, Zigzag;
    assert SizeOf(version) - 1 == 2 * (2 * version + 8);
    ZigzagFromVisits(SizeOf(version), SizeOf(version) - 1, true);
  }

  // --- Data ---------------------------------------------------------------------------

  /** A matrix as a function of row and column. */
  type Grid = (nat, nat) -> Module

  ghost predicate Shows(m: array2<Module>, grid: Grid)
    reads m
  {
    forall r: nat, c: nat | r < m.Length0 && c < m.Length1 :: m[r, c] == grid(r, c)
  }

  /** The modules of an order that are free in a grid, in that order. */
  function Free(order: Order, grid: Grid): Order {
    if order == [] then []
    else
      var p := order[|order| - 1];
      Free(order[..|order| - 1], grid) + if grid(p.row, p.col) == 0 then [p] else []
  }

  /** The bit placed on the k-th free module: the codewords' bits, then zeros. */
  function DataBit(codewords: seq<Byte>, k: nat): Module {
    if k < 8 * |codewords| && Unpack(codewords)[k] then 1 else 0
  }

  lemma UnpackStep(bytes: seq<Byte>, k: nat)
    requires k < 8 * |bytes|
    ensures |Unpack(bytes)| == 8 * |bytes| && |ToBits(bytes[0], 8)| == 8 && |Unpack(bytes[1..])| == 8 * (|bytes| - 1)
    ensures Unpack(bytes)[k] == if k < 8 then ToBits(bytes[0], 8)[k] else Unpack(bytes[1..])[k - 8]
  {
    hide ToBits;
    assert Unpack(bytes) == ToBits(bytes[0], 8) + Unpack(bytes[1..]);
  }

  lemma {:induction false} UnpackAt(bytes: seq<Byte>, k: nat)
    requires k < 8 * |bytes|
    ensures Unpack(bytes)[k] == BitAt(bytes[k / 8], 7 - k % 8)
  {
    hide ToBits, BitAt, Unpack;
    UnpackStep(bytes, k);
    if k >= 8 {
      UnpackAt(bytes[1..], k - 8);
      assert (k - 8) / 8 == k / 8 - 1 && (k - 8) % 8 == k % 8;
      assert bytes[1..][k / 8 - 1] == bytes[k / 8];
    } else {
      ToBitsAt(bytes[0], 8, k);
      assert k / 8 == 0 && k % 8 == k;
    }
  }

  lemma {:induction false} ToBitsAt(value: nat, length: nat, k: nat)
    requires k < length
    ensures ToBits(value, length)[k] == BitAt(value, length - 1 - k)
  {
    if k > 0 {
      ToBitsAt(value, length - 1, k - 1);
    }
  }

  lemma {:induction false} FreeMembers(order: Order, grid: Grid)
    ensures forall p: Pos :: p in Free(order, grid) <==> p in order && grid(p.row, p.col) == 0
    ensures NoRepeats(order) ==> NoRepeats(Free(order, grid))
  {
    if order != [] {
      var n := |order| - 1;
      FreeMembers(order[..n], grid);
      assert order == order[..n] + [order[n]];
    }
  }

  lemma FreeSnoc(order: Order, k: nat, grid: Grid)
    requires k < |order|
    ensures Free(order[..k + 1], grid) ==
      Free(order[..k], grid) + if grid(order[k].row, order[k].col) == 0 then [order[k]] else []
  {
    assert order[..k + 1][..k] == order[..k];
  }

  /** The data bits have been placed on the given modules, and nothing else has changed. */
  ghost predicate Placed(m: array2<Module>, grid: Grid, placed: Order, codewords: seq<Byte>)
    reads m
  {
    && (forall k | 0 <= k < |placed| ::
          placed[k].row < m.Length0 && placed[k].col < m.Length1 && m[placed[k].row, placed[k].col] == DataBit(codewords, k))
    && (forall r: nat, c: nat | r < m.Length0 && c < m.Length1 && Pos(r, c) !in placed :: m[r, c] == grid(r, c))
  }

  /** The first `done` modules of the order have been visited, and bitIndex bits placed. */
  ghost predicate Visited(m: array2<Module>, grid: Grid, order: Order, codewords: seq<Byte>, done: nat, bitIndex: nat)
    reads m
  {
    && done <= |order|
    && bitIndex == |Free(order[..done], grid)|
    && Placed(m, grid, Free(order[..done], grid), codewords)
  }

  /** Visits one module: a free one takes the next bit. */
  method VisitModule(m: array2<Module>, ghost grid: Grid, ghost order: Order, ghost done: nat, codewords: array<Byte>, bitIndex: nat,
                     row: nat, col: nat) returns (next: nat)
    requires done < |order| && NoRepeats(order) && order[done] == Pos(row, col)
    requires row < m.Length0 && col < m.Length1
    requires Visited(m, grid, order, codewords[..], done, bitIndex)
    modifies m
    ensures Visited(m, grid, order, codewords[..], done + 1, next)
  {
    hide Free, DataBit, Unpack;
    ghost var placed := Free(order[..done], grid);
    FreeMembers(order[..done], grid);
    assert order[done] !in order[..done];
    FreeSnoc(order, done, grid);
    next := bitIndex;
    if m[row, col] == 0 {
      var bit := ReadBit(codewords, bitIndex);
      m[row, col] := bit;
      next := bitIndex + 1;
    }
  }

  /** Bit number bitIndex of the codewords; zero past their end. */
  method ReadBit(codewords: array<Byte>, bitIndex: nat) returns (bit: Module)
    ensures bit == DataBit(codewords[..], bitIndex)
  {
    if bitIndex < 8 * codewords.Length {
      UnpackAt(codewords[..], bitIndex);
      bit := if BitAt(codewords[bitIndex / 8], 7 - bitIndex % 8) then 1 else 0;
    } else {
      bit := 0;
    }
  }

  lemma StripAt(size: nat, col: nat, upward: bool, offset: nat, inner: nat)
    requires col >= 1 && offset < size && inner < 2
    ensures 2 * offset + inner < |Strip(size, col, upward)|
    ensures Strip(size, col, upward)[2 * offset + inner] == Pos(if upward then size - 1 - offset else offset, col - inner)
  {
    var t := 2 * offset + inner;
    assert t / 2 == offset && t % 2 == inner;
  }

  /** Visits the two modules of one row in a column pair. */
  method PlacePair(m: array2<Module>, ghost grid: Grid, ghost order: Order, ghost done: nat, codewords: array<Byte>,
                   bitIndex: nat, row: nat, col: nat) returns (next: nat)
    requires row < m.Length0 && 1 <= col < m.Length1
    requires done + 2 <= |order| && NoRepeats(order)
    requires order[done] == Pos(row, col) && order[done + 1] == Pos(row, col - 1)
    requires Visited(m, grid, order, codewords[..], done, bitIndex)
    modifies m
    ensures Visited(m, grid, order, codewords[..], done + 2, next)
  {
    hide *;
    next := bitIndex;
    for inner := 0 to 2
      invariant Visited(m, grid, order, codewords[..], done + inner, next)
    {
      next := VisitModule(m, grid, order, done + inner, codewords, next, row, col - inner);
    }
  }

  /** Visits one column pair. */
  method PlaceStrip(m: array2<Module>, ghost grid: Grid, ghost order: Order, ghost start: nat, codewords: array<Byte>,
                    bitIndex: nat, col: nat, upward: bool) returns (next: nat)
    requires m.Length0 == m.Length1 && 1 <= col < m.Length0
    requires start + 2 * m.Length0 <= |order| && NoRepeats(order)
    requires order[start..start + 2 * m.Length0] == Strip(m.Length0, col, upward)
    requires Visited(m, grid, order, codewords[..], start, bitIndex)
    modifies m
    ensures Visited(m, grid, order, codewords[..], start + 2 * m.Length0, next)
  {
    hide *;
    var size := m.Length0;
    ghost var strip := order[start..start + 2 * size];
    next := bitIndex;
    for offset := 0 to size
      invariant Visited(m, grid, order, codewords[..], start + 2 * offset, next)
    {
      var row := if upward then size - 1 - offset else offset;
      StripAt(size, col, upward, offset, 0);
      StripAt(size, col, upward, offset, 1);
      ghost var t := 2 * offset;
      assert order[start + t] == strip[t] && order[start + t + 1] == strip[t + 1];
      next := PlacePair(m, grid, order, start + t, codewords, next, row, col);
    }
  }

  /** What is left of the order is the zigzag from `col`. */
  predicate Remaining(order: Order, done: nat, size: nat, col: int, upward: bool) {
    done <= |order| && order[done..] == ZigzagFrom(size, col, upward)
  }

  /** The state of the walk between two column pairs. */
  ghost predicate Walking(m: array2<Module>, grid: Grid, order: Order, codewords: seq<Byte>, done: nat, bitIndex: nat,
                          col: int, upward: bool)
    reads m
  {
    && m.Length0 == m.Length1 && col < m.Length0 && NoRepeats(order)
    && Remaining(order, done, m.Length0, col, upward)
    && Visited(m, grid, order, codewords, done, bitIndex)
  }

  /** Visits the column pair at or, for column 6, just left of `col`; returns the column where the next pair starts. */
  method PlaceColumns(m: array2<Module>, ghost grid: Grid, ghost order: Order, ghost done: nat, codewords: array<Byte>,
                      bitIndex: nat, col: int, upward: bool) returns (nextBit: nat, nextCol: int)
    requires col > 0 && Walking(m, grid, order, codewords[..], done, bitIndex, col, upward)
    modifies m
    ensures nextCol < col && Walking(m, grid, order, codewords[..], done + 2 * m.Length0, nextBit, nextCol, !upward)
  {
    hide Remaining, Visited, NoRepeats;
    NextStrip(m.Length0, order, done, col, upward);
    var c := col;
    if c == 6 {
      c := c - 1;
    }
    nextBit := PlaceStrip(m, grid, order, done, codewords, bitIndex, c, upward);
    nextCol := c - 2;
  }

  /** Walks the zigzag from the bottom right and writes bit k on the k-th free module. */
  method PlaceData(m: array2<Module>, codewords: array<Byte>, ghost version: nat, ghost grid: Grid)
    requires version >= 1 && m.Length0 == m.Length1 == SizeOf(version) && Shows(m, grid)
    modifies m
    ensures Placed(m, grid, Free(Zigzag(m.Length0), grid), codewords[..])
  {
    hide *;
    WalkingStart(m, grid, codewords[..], version);
    ghost var order, done := Zigzag(m.Length0), 0;
    var bitIndex, upward, col := 0, true, m.Length0 - 1;
    while col > 0
      invariant done >= 0 && bitIndex >= 0
      invariant Walking(m, grid, order, codewords[..], done, bitIndex, col, upward)
    {
      bitIndex, col := PlaceColumns(m, grid, order, done, codewords, bitIndex, col, upward);
      done := done + 2 * m.Length0;
      upward := !upward;
    }
    WalkingEnd(m, grid, order, codewords[..], done, bitIndex, col, upward);
  }

  lemma WalkingStart(m: array2<Module>, grid: Grid, codewords: seq<Byte>, version: nat)
    requires version >= 1 && m.Length0 == m.Length1 == SizeOf(version) && Shows(m, grid)
    ensures Walking(m, grid, Zigzag(m.Length0), codewords, 0, 0, m.Length0 - 1, true)
  {
    RemainingAll(SizeOf(version));
    hide Zigzag, NoRepeats, Remaining, Visited;
    ZigzagVisits(version);
    VisitedNone(m, grid, Zigzag(m.Length0), codewords);
  }

  lemma WalkingEnd(m: array2<Module>, grid: Grid, order: Order, codewords: seq<Byte>, done: nat, bitIndex: nat, col: int, upward: bool)
    requires col <= 0 && Walking(m, grid, order, codewords, done, bitIndex, col, upward)
    ensures Placed(m, grid, Free(order, grid), codewords)
  {
    hide Visited, Remaining, Free, Placed;
    RemainingNone(order, done, m.Length0, col, upward);
    VisitedAll(m, grid, order, codewords, bitIndex);
  }

  lemma VisitedNone(m: array2<Module>, grid: Grid, order: Order, codewords: seq<Byte>)
    requires Shows(m, grid)
    ensures Visited(m, grid, order, codewords, 0, 0)
  {
    assert order[..0] == [];
  }

  lemma NextStrip(size: nat, order: Order, done: nat, col: int, upward: bool)
    requires col > 0 && Remaining(order, done, size, col, upward)
    ensures done + 2 * size <= |order|
    ensures order[done..done + 2 * size] == Strip(size, if col == 6 then 5 else col, upward)
    ensures Remaining(order, done + 2 * size, size, if col == 6 then 3 else col - 2, !upward)
  {
    var c := if col == 6 then 5 else col;
    var here := order[done..];
    ZigzagFromUnfold(size, col, upward);
    hide ZigzagFrom;
    var strip, rest := Strip(size, c, upward), ZigzagFrom(size, c - 2, !upward);
    assert order[done..done + 2 * size] == here[..2 * size] == strip;
    assert order[done + 2 * size..] == here[2 * size..] == rest;
  }

  lemma RemainingAll(size: nat)
    ensures Remaining(Zigzag(size), 0, size, size - 1, true)
  {}

  lemma RemainingNone(order: Order, done: nat, size: nat, col: int, upward: bool)
    requires col <= 0 && Remaining(order, done, size, col, upward)
    ensures done == |order|
  {}

  lemma VisitedAll(m: array2<Module>, grid: Grid, order: Order, codewords: seq<Byte>, bitIndex: nat)
    requires Visited(m, grid, order, codewords, |order|, bitIndex)
    ensures Placed(m, grid, Free(order, grid), codewords)
  {
    assert order[..|order|] == order;
  }
}
