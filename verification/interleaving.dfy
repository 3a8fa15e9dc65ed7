/** Splitting codewords into blocks, interleaving the blocks column by column, and undoing both. */
module Interleaving {

  function Total(lengths: seq<nat>): nat {
    if lengths == [] then 0 else lengths[0] + Total(lengths[1..])
  }

  function Lengths<T>(blocks: seq<seq<T>>): (lengths: seq<nat>)
    ensures |lengths| == |blocks|
  {
    seq(|blocks|, b requires 0 <= b < |blocks| => |blocks[b]|)
  }

  function Longest(lengths: seq<nat>): (max: nat)
    ensures forall l | l in lengths :: l <= max
    ensures max == 0 || max in lengths
  {
    if lengths == [] then 0
    else
      assert lengths == [lengths[0]] + lengths[1..];
      var rest := Longest(lengths[1..]);
      if lengths[0] < rest then rest else lengths[0]
  }

  /** Consecutive blocks of the given lengths. */
  function Split<T>(s: seq<T>, lengths: seq<nat>): (blocks: seq<seq<T>>)
    requires |s| == Total(lengths)
    ensures |blocks| == |lengths|
  {
    if lengths == [] then [] else [s[..lengths[0]]] + Split(s[lengths[0]..], lengths[1..])
  }

  function Flatten<T>(blocks: seq<seq<T>>): seq<T> {
    if blocks == [] then [] else blocks[0] + Flatten(blocks[1..])
  }

  /** The elements at one index of every block long enough to have it. */
  function Column<T>(blocks: seq<seq<T>>, index: nat): seq<T> {
    if blocks == [] then []
    else (if index < |blocks[0]| then [blocks[0][index]] else []) + Column(blocks[1..], index)
  }

  /** Columns from `index` up to but not including `end`, one after the other. */
  function Columns<T>(blocks: seq<seq<T>>, index: nat, end: nat): seq<T>
    requires index <= end
    decreases end - index
  {
    if index == end then [] else Column(blocks, index) + Columns(blocks, index + 1, end)
  }

  function ColumnSize(lengths: seq<nat>, index: nat): nat {
    if lengths == [] then 0 else (if index < lengths[0] then 1 else 0) + ColumnSize(lengths[1..], index)
  }

  function ColumnsSize(lengths: seq<nat>, index: nat, end: nat): nat
    requires index <= end
    decreases end - index
  {
    if index == end then 0 else ColumnSize(lengths, index) + ColumnsSize(lengths, index + 1, end)
  }

  /** Hands the elements of a column back to the blocks that are long enough. */
  function Spread<T>(lengths: seq<nat>, index: nat, column: seq<T>): (parts: seq<seq<T>>)
    requires |column| == ColumnSize(lengths, index)
    ensures |parts| == |lengths|
  {
    if lengths == [] then []
    else if index < lengths[0] then [[column[0]]] + Spread(lengths[1..], index, column[1..])
    else [[]] + Spread(lengths[1..], index, column)
  }

  function Zip<T>(a: seq<seq<T>>, b: seq<seq<T>>): (c: seq<seq<T>>)
    requires |a| == |b|
    ensures |c| == |a|
  {
    seq(|a|, i requires 0 <= i < |a| => a[i] + b[i])
  }

  /** The blocks' elements from `index` on, recovered from their columns. */
  function Deinterleave<T>(lengths: seq<nat>, index: nat, end: nat, s: seq<T>): (blocks: seq<seq<T>>)
    requires index <= end && |s| == ColumnsSize(lengths, index, end)
    ensures |blocks| == |lengths|
    decreases end - index
  {
    if index == end then seq(|lengths|, _ => [])
    else
      var n := ColumnSize(lengths, index);
      Zip(Spread(lengths, index, s[..n]), Deinterleave(lengths, index + 1, end, s[n..]))
  }

  function Min(a: nat, b: nat): nat {
    if a < b then a else b
  }

  function Tails<T>(blocks: seq<seq<T>>, index: nat): (tails: seq<seq<T>>)
    ensures |tails| == |blocks|
  {
    seq(|blocks|, b requires 0 <= b < |blocks| => blocks[b][Min(index, |blocks[b]|)..])
  }

  lemma LengthsCons<T>(first: seq<T>, tail: seq<seq<T>>)
    ensures Lengths([first] + tail) == [|first|] + Lengths(tail)
  {}

  lemma FlattenCons<T>(first: seq<T>, tail: seq<seq<T>>)
    ensures Flatten([first] + tail) == first + Flatten(tail)
  {
    assert ([first] + tail)[1..] == tail;
  }

  lemma {:induction false} FlattenSplit<T>(s: seq<T>, lengths: seq<nat>)
    requires |s| == Total(lengths)
    ensures Flatten(Split(s, lengths)) == s
    ensures Lengths(Split(s, lengths)) == lengths
  {
    if lengths != [] {
      var first, rest := s[..lengths[0]], s[lengths[0]..];
      FlattenSplit(rest, lengths[1..]);
      var tail := Split(rest, lengths[1..]);
      assert Split(s, lengths) == [first] + tail;
      hide *;
      FlattenCons(first, tail);
      LengthsCons(first, tail);
      assert lengths == [|first|] + lengths[1..];
    }
  }

  lemma {:induction false} ColumnLength<T>(blocks: seq<seq<T>>, index: nat)
    ensures |Column(blocks, index)| == ColumnSize(Lengths(blocks), index)
  {
    if blocks != [] {
      ColumnLength(blocks[1..], index);
      assert Lengths(blocks)[1..] == Lengths(blocks[1..]);
    }
  }

  lemma {:induction false} ColumnsLength<T>(blocks: seq<seq<T>>, index: nat, end: nat)
    requires index <= end
    ensures |Columns(blocks, index, end)| == ColumnsSize(Lengths(blocks), index, end)
    decreases end - index
  {
    if index < end {
      ColumnLength(blocks, index);
      ColumnsLength(blocks, index + 1, end);
    }
  }

  lemma {:induction false} SpreadColumn<T>(blocks: seq<seq<T>>, index: nat)
    requires |Column(blocks, index)| == ColumnSize(Lengths(blocks), index)
    ensures forall b | 0 <= b < |blocks| ::
      Spread(Lengths(blocks), index, Column(blocks, index))[b] == if index < |blocks[b]| then [blocks[b][index]] else []
  {
    if blocks != [] {
      var rest := blocks[1..];
      ColumnLength(rest, index);
      SpreadColumn(rest, index);
      assert Lengths(blocks)[1..] == Lengths(rest);
      var column := Column(blocks, index);
      if index < |blocks[0]| {
        assert column[1..] == Column(rest, index);
      } else {
        assert column == Column(rest, index);
      }
      assert forall b | 0 < b < |blocks| :: blocks[b] == rest[b - 1];
    }
  }

  /** Past the end of all blocks nothing is left. */
  lemma NothingLeft<T>(blocks: seq<seq<T>>, end: nat)
    requires forall b | 0 <= b < |blocks| :: |blocks[b]| <= end
    ensures Columns(blocks, end, end) == [] && |Columns(blocks, end, end)| == ColumnsSize(Lengths(blocks), end, end)
    ensures Deinterleave(Lengths(blocks), end, end, []) == Tails(blocks, end)
  {
    var none, tails := Deinterleave<T>(Lengths(blocks), end, end, []), Tails(blocks, end);
    forall b | 0 <= b < |blocks|
      ensures none[b] == tails[b]
    {
      assert tails[b] == [];
    }
  }

  /** The element at an index goes in front of what follows it. */
  lemma TailsZip<T>(blocks: seq<seq<T>>, index: nat, parts: seq<seq<T>>)
    requires |parts| == |blocks|
    requires forall b | 0 <= b < |blocks| :: parts[b] == if index < |blocks[b]| then [blocks[b][index]] else []
    ensures Zip(parts, Tails(blocks, index + 1)) == Tails(blocks, index)
  {
    var zipped, tails := Zip(parts, Tails(blocks, index + 1)), Tails(blocks, index);
    forall b | 0 <= b < |blocks|
      ensures zipped[b] == tails[b]
    {
      TailGrows(blocks[b], index, parts[b]);
    }
  }

  lemma TailGrows<T>(block: seq<T>, index: nat, part: seq<T>)
    requires part == if index < |block| then [block[index]] else []
    ensures part + block[Min(index + 1, |block|)..] == block[Min(index, |block|)..]
  {
  }

  /** Interleaving is undone column by column, whatever the block lengths. */
  lemma {:induction false} DeinterleaveColumns<T>(blocks: seq<seq<T>>, index: nat, end: nat)
    requires index <= end
    requires forall b | 0 <= b < |blocks| :: |blocks[b]| <= end
    requires |Columns(blocks, index, end)| == ColumnsSize(Lengths(blocks), index, end)
    ensures Deinterleave(Lengths(blocks), index, end, Columns(blocks, index, end)) == Tails(blocks, index)
    decreases end - index
  {
    hide Spread, Column, ColumnSize, ColumnsSize, Deinterleave, Lengths, Tails, Zip;
    if index == end {
      NothingLeft(blocks, end);
    } else {
      ColumnLength(blocks, index);
      ColumnsLength(blocks, index + 1, end);
      DeinterleaveColumns(blocks, index + 1, end);
      SpreadColumn(blocks, index);
      DeinterleaveStep(Lengths(blocks), index, end, Column(blocks, index), Columns(blocks, index + 1, end));
      TailsZip(blocks, index, Spread(Lengths(blocks), index, Column(blocks, index)));
    }
  }

  lemma DeinterleaveStep<T>(lengths: seq<nat>, index: nat, end: nat, column: seq<T>, rest: seq<T>)
    requires index < end
    requires |column| == ColumnSize(lengths, index) && |rest| == ColumnsSize(lengths, index + 1, end)
    ensures |column + rest| == ColumnsSize(lengths, index, end)
    ensures Deinterleave(lengths, index, end, column + rest)
         == Zip(Spread(lengths, index, column), Deinterleave(lengths, index + 1, end, rest))
  {
    assert (column + rest)[..|column|] == column && (column + rest)[|column|..] == rest;
  }

  /** All columns together: every element once. */
  lemma DeinterleaveAll<T>(blocks: seq<seq<T>>, end: nat)
    requires forall b | 0 <= b < |blocks| :: |blocks[b]| <= end
    ensures |Columns(blocks, 0, end)| == ColumnsSize(Lengths(blocks), 0, end)
    ensures Deinterleave(Lengths(blocks), 0, end, Columns(blocks, 0, end)) == blocks
  {
    ColumnsLength(blocks, 0, end);
    DeinterleaveColumns(blocks, 0, end);
    assert Tails(blocks, 0) == blocks;
  }

  lemma {:induction false} ColumnSnoc<T>(blocks: seq<seq<T>>, block: seq<T>, index: nat)
    ensures Column(blocks + [block], index) == Column(blocks, index) + if index < |block| then [block[index]] else []
  {
    if blocks == [] {
      assert blocks + [block] == [block] && [block][1..] == [];
    } else {
      ColumnSnoc(blocks[1..], block, index);
      assert (blocks + [block])[1..] == blocks[1..] + [block];
    }
  }

  lemma {:induction false} ColumnsSnoc<T>(blocks: seq<seq<T>>, index: nat, end: nat)
    requires index <= end
    ensures Columns(blocks, index, end + 1) == Columns(blocks, index, end) + Column(blocks, end)
    decreases end - index
  {
    hide Column, Columns;
    if index < end {
      ColumnsSnoc(blocks, index + 1, end);
      ColumnsUnfold(blocks, index, end + 1);
      ColumnsUnfold(blocks, index, end);
      assert Column(blocks, index) + (Columns(blocks, index + 1, end) + Column(blocks, end))
          == Column(blocks, index) + Columns(blocks, index + 1, end) + Column(blocks, end);
    } else {
      ColumnsEmpty(blocks, end);
      ColumnsUnfold(blocks, end, end + 1);
      ColumnsEmpty(blocks, end + 1);
    }
  }

  lemma ColumnsUnfold<T>(blocks: seq<seq<T>>, index: nat, end: nat)
    requires index < end
    ensures Columns(blocks, index, end) == Column(blocks, index) + Columns(blocks, index + 1, end)
  {}

  lemma ColumnsEmpty<T>(blocks: seq<seq<T>>, end: nat)
    ensures Columns(blocks, end, end) == []
  {}

  lemma ColumnEmpty<T>(index: nat)
    ensures Column<T>([], index) == []
  {}

  lemma {:induction false} TotalConcat(a: seq<nat>, b: seq<nat>)
    ensures Total(a + b) == Total(a) + Total(b)
  {
    if a == [] {
      assert a + b == b;
    } else {
      assert (a + b)[1..] == a[1..] + b;
      TotalConcat(a[1..], b);
    }
  }

  /** Splitting one more block off the sequence. */
  lemma {:induction false} SplitSnoc<T>(s: seq<T>, lengths: seq<nat>, block: seq<T>)
    requires |s| == Total(lengths)
    ensures |s + block| == Total(lengths + [|block|])
    ensures Split(s + block, lengths + [|block|]) == Split(s, lengths) + [block]
  {
    hide Total, Split;
    TotalConcat(lengths, [|block|]);
    TotalCons(|block|, []);
    TotalNone();
    SplitOne(s, block);
    assert [|block|] + [] == [|block|];
    if lengths != [] {
      var n := lengths[0];
      assert [n] + lengths[1..] == lengths;
      TotalCons(n, lengths[1..]);
      assert |s[n..]| == Total(lengths[1..]);
      SplitSnoc(s[n..], lengths[1..], block);
      SplitCons(s[..n], s[n..] + block, lengths[1..] + [|block|]);
      SplitCons(s[..n], s[n..], lengths[1..]);
      assert [n] + (lengths[1..] + [|block|]) == lengths + [|block|];
      assert s[..n] + (s[n..] + block) == s + block && s[..n] + s[n..] == s;
      assert [s[..n]] + (Split(s[n..], lengths[1..]) + [block]) == [s[..n]] + Split(s[n..], lengths[1..]) + [block];
    } else {
      assert s == [] && [] + [|block|] == lengths + [|block|];
    }
  }

  lemma TotalNone()
    ensures Total([]) == 0
  {
  }

  lemma SplitOne<T>(s: seq<T>, block: seq<T>)
    ensures |block| == Total([] + [|block|])
    ensures s == [] ==> Split(s + block, [] + [|block|]) == Split([], []) + [block]
  {
    assert block + [] == block && [|block|] + [] == [] + [|block|];
    SplitCons(block, [], []);
    if s == [] {
      assert s + block == block;
    }
  }

  lemma TotalCons(length: nat, rest: seq<nat>)
    ensures Total([length] + rest) == length + Total(rest)
  {
    assert ([length] + rest)[1..] == rest;
  }

  lemma SplitCons<T>(first: seq<T>, rest: seq<T>, lengths: seq<nat>)
    requires |rest| == Total(lengths)
    ensures Total([|first|] + lengths) == |first + rest|
    ensures Split(first + rest, [|first|] + lengths) == [first] + Split(rest, lengths)
  {
    TotalCons(|first|, lengths);
    assert ([|first|] + lengths)[1..] == lengths;
    assert (first + rest)[..|first|] == first && (first + rest)[|first|..] == rest;
  }

  /** The nested loops that push one column after another. */
  method PushColumns<T>(interleaved: seq<T>, blocks: seq<seq<T>>, end: nat) returns (result: seq<T>)
    ensures result == interleaved + Columns(blocks, 0, end)
  {
    result := interleaved;
    hide Column, Columns;
    ColumnsEmpty(blocks, 0);
    for index := 0 to end
      invariant result == interleaved + Columns(blocks, 0, index)
    {
      ghost var start := result;
      ColumnEmpty<T>(index);
      for b := 0 to |blocks|
        invariant result == start + Column(blocks[..b], index)
      {
        ColumnSnoc(blocks[..b], blocks[b], index);
        assert blocks[..b + 1] == blocks[..b] + [blocks[b]];
        if index < |blocks[b]| {
          result := result + [blocks[b][index]];
        }
      }
      assert blocks[..|blocks|] == blocks;
      ColumnsSnoc(blocks, 0, index);
    }
  }

  lemma {:induction false} ColumnsSizeCons(lengths: seq<nat>, index: nat, end: nat)
    requires lengths != [] && lengths[0] <= end && index <= end
    ensures ColumnsSize(lengths, index, end)
         == ColumnsSize(lengths[1..], index, end) + if index < lengths[0] then lengths[0] - index else 0
    decreases end - index
  {
    if index < end {
      ColumnsSizeCons(lengths, index + 1, end);
    }
  }

  lemma {:induction false} ColumnsSizeNone(index: nat, end: nat)
    requires index <= end
    ensures ColumnsSize([], index, end) == 0
    decreases end - index
  {
    if index < end {
      ColumnsSizeNone(index + 1, end);
    }
  }

  /** Interleaving keeps every element: the columns are as long as the blocks together. */
  lemma {:induction false} ColumnsSizeTotal(lengths: seq<nat>, end: nat)
    requires forall l | l in lengths :: l <= end
    ensures ColumnsSize(lengths, 0, end) == Total(lengths)
  {
    if lengths == [] {
      ColumnsSizeNone(0, end);
    } else {
      assert lengths[0] in lengths && forall l | l in lengths[1..] :: l in lengths;
      ColumnsSizeCons(lengths, 0, end);
      ColumnsSizeTotal(lengths[1..], end);
    }
  }
}
