/** The assets of a deletion: moving them into the trash and bringing them back. */
module DeletionItems {
  import opened Wrappers
  import opened Storage

  // --- The steps -----------------------------------------------------------------------

  function StageOps(items: seq<StagedItem>): (ops: seq<Op>)
    ensures |ops| == |items|
  {
    if items == [] then [] else [Move(items[0].original, items[0].staged)] + StageOps(items[1..])
  }

  /** An asset goes back only if it is in the trash and nothing has taken its place. */
  function RestoreItemOps(disk: Disk, item: StagedItem): seq<Op> {
    if item.original !in disk && item.staged in disk then [Move(item.staged, item.original)] else []
  }

  /** The assets go back from the last to the first. */
  function RestoreOps(w: World, items: seq<StagedItem>): seq<Op>
    decreases |items|
  {
    if items == [] then []
    else
      var last := |items| - 1;
      var ops := RestoreItemOps(w.disk, items[last]);
      ops + RestoreOps(Run(ops, w), items[..last])
  }

  /** Every asset was found at exactly one of its two places. */
  predicate RestoreSound(w: World, items: seq<StagedItem>)
    decreases |items|
  {
    if items == [] then true
    else
      var last := |items| - 1;
      Exact(PairOf(w.disk, items[last])) && RestoreSound(Run(RestoreItemOps(w.disk, items[last]), w), items[..last])
  }

  // --- The two places of an asset ------------------------------------------------------

  /** What is at the two places of an asset. */
  datatype Pair = Pair(original: Option<Entry>, staged: Option<Entry>)

  function PairOf(disk: Disk, item: StagedItem): Pair {
    Pair(Lookup(disk, item.original), Lookup(disk, item.staged))
  }

  predicate Exact(p: Pair) {
    p.original.Some? != p.staged.Some?
  }

  function Restored(p: Pair): Pair {
    if p.original.None? && p.staged.Some? then Pair(p.staged, None) else p
  }

  function PathsOf(item: StagedItem): set<Path> {
    {item.original, item.staged}
  }

  /** No two places are the same. */
  predicate Distinct(items: seq<StagedItem>) {
    && (forall i | 0 <= i < |items| :: items[i].original != items[i].staged)
    && (forall i, k | 0 <= i < k < |items| :: PathsOf(items[i]) !! PathsOf(items[k]))
  }

  predicate IsPlace(items: seq<StagedItem>, p: Path) {
    exists i | 0 <= i < |items| :: p in PathsOf(items[i])
  }

  ghost predicate SameBeyond(a: Disk, b: Disk, items: seq<StagedItem>) {
    forall p: Path | !IsPlace(items, p) :: Lookup(a, p) == Lookup(b, p)
  }

  ghost predicate SamePairs(a: Disk, b: Disk, items: seq<StagedItem>) {
    forall i | 0 <= i < |items| :: PairOf(a, items[i]) == PairOf(b, items[i])
  }

  /** Every asset is where it was, or has gone back to its place. */
  ghost predicate Returning(a: Disk, b: Disk, items: seq<StagedItem>) {
    forall i | 0 <= i < |items| :: PairOf(b, items[i]) == PairOf(a, items[i]) || PairOf(b, items[i]) == Restored(PairOf(a, items[i]))
  }

  ghost predicate Returned(a: Disk, b: Disk, items: seq<StagedItem>) {
    forall i | 0 <= i < |items| :: PairOf(b, items[i]) == Restored(PairOf(a, items[i]))
  }

  ghost predicate AllExact(disk: Disk, items: seq<StagedItem>) {
    forall i | 0 <= i < |items| :: Exact(PairOf(disk, items[i]))
  }

  // --- Restoring -----------------------------------------------------------------------

  lemma RestoreItem(w: World, item: StagedItem, k: nat)
    requires item.original != item.staged && k <= |RestoreItemOps(w.disk, item)|
    ensures var ops := RestoreItemOps(w.disk, item);
            var v := Run(ops[..k], w);
            && v.db == w.db && SameBeyond(w.disk, v.disk, [item])
            && (PairOf(v.disk, item) == PairOf(w.disk, item) || PairOf(v.disk, item) == Restored(PairOf(w.disk, item)))
            && (k == |ops| ==> v == Run(ops, w) && PairOf(v.disk, item) == Restored(PairOf(w.disk, item)))
  {
    var ops := RestoreItemOps(w.disk, item);
    RunUpTo3(ops[..k], w);
    assert [item][0] == item;
    assert ops[..|ops|] == ops;
  }

  lemma OthersSame(a: Disk, b: Disk, items: seq<StagedItem>, others: seq<StagedItem>)
    requires SameBeyond(a, b, items)
    requires forall i, k | 0 <= i < |items| && 0 <= k < |others| :: PathsOf(items[i]) !! PathsOf(others[k])
    ensures SamePairs(a, b, others)
  {
    forall k | 0 <= k < |others|
      ensures PairOf(a, others[k]) == PairOf(b, others[k])
    {
      assert forall p | p in PathsOf(others[k]) :: !IsPlace(items, p);
      assert others[k].original in PathsOf(others[k]) && others[k].staged in PathsOf(others[k]);
    }
  }

  lemma DistinctSnoc(items: seq<StagedItem>)
    requires items != [] && Distinct(items)
    ensures var last := |items| - 1;
            var rest := items[..last];
            && Distinct(rest) && items[last].original != items[last].staged
            && (forall i | 0 <= i < |rest| :: PathsOf(rest[i]) !! PathsOf(items[last]))
            && (forall p :: IsPlace(rest, p) || IsPlace([items[last]], p) ==> IsPlace(items, p))
  {
    hide PathsOf;
    var last := |items| - 1;
    var rest := items[..last];
    forall p
      ensures IsPlace(rest, p) || IsPlace([items[last]], p) ==> IsPlace(items, p)
    {
      if IsPlace(rest, p) {
        var i :| 0 <= i < |rest| && p in PathsOf(rest[i]);
        assert items[i] == rest[i];
      }
      if IsPlace([items[last]], p) {
        assert p in PathsOf(items[last]);
      }
    }
  }

  lemma SameBeyondJoin(a: Disk, b: Disk, c: Disk, items: seq<StagedItem>)
    requires items != [] && Distinct(items)
    requires SameBeyond(a, b, [items[|items| - 1]]) && SameBeyond(b, c, items[..|items| - 1])
    ensures SameBeyond(a, c, items)
  {
    hide IsPlace, Distinct;
    DistinctSnoc(items);
  }

  lemma SameBeyondSelf(a: Disk, items: seq<StagedItem>)
    ensures SameBeyond(a, a, items)
  {
  }

  /** Restoring up to any step: nothing is overwritten or lost, whatever the disk looks like, and in the end everything that could go back has. */
  lemma {:induction false} RestorePrefix(w: World, items: seq<StagedItem>, k: nat)
    requires Distinct(items) && k <= |RestoreOps(w, items)|
    ensures var ops := RestoreOps(w, items);
            var v := Run(ops[..k], w);
            && v.db == w.db && SameBeyond(w.disk, v.disk, items) && Returning(w.disk, v.disk, items)
            && (k == |ops| ==> Returned(w.disk, v.disk, items))
    ensures RestoreSound(w, items) <==> AllExact(w.disk, items)
    decreases |items|
  {
    hide Run, Apply, RestoreItemOps, Distinct, SameBeyond, IsPlace, PathsOf, PairOf, Exact, Restored;
    var ops := RestoreOps(w, items);
    SameBeyondSelf(w.disk, items);
    if items == [] {
      RunNone(w);
      assert ops[..k] == [];
    } else {
      DistinctSnoc(items);
      var last := |items| - 1;
      var item, rest := items[last], items[..last];
      var first := RestoreItemOps(w.disk, item);
      var w1 := Run(first, w);
      RunSplit(first, RestoreOps(w1, rest), w, k);
      var k1 := if k < |first| then k else |first|;
      var v := Run(first[..k1], w);
      RestoreItem(w, item, k1);
      RestoreItem(w, item, |first|);
      assert first[..|first|] == first;
      OthersSame(w.disk, v.disk, [item], rest);
      OthersSame(w.disk, w1.disk, [item], rest);
      var k2 := if k < |first| then 0 else k - |first|;
      RestorePrefix(w1, rest, k2);
      var after := Run(ops[..k], w);
      SameBeyondSelf(v.disk, rest);
      if k >= |first| {
        OthersSame(w1.disk, after.disk, rest, [item]);
        assert [item][0] == item;
      }
      SameBeyondJoin(w.disk, v.disk, after.disk, items);
      assert forall i | 0 <= i < last :: items[i] == rest[i];
    }
  }

  // --- Staging -------------------------------------------------------------------------

  /** The first k assets are in the trash, the others in their places. */
  ghost predicate StagedUpTo(disk: Disk, items: seq<StagedItem>, trees: seq<Entry>, k: nat) {
    && |items| == |trees|
    && forall i | 0 <= i < |items| :: PairOf(disk, items[i]) == if i < k then Pair(None, Some(trees[i])) else Pair(Some(trees[i]), None)
  }

  lemma {:induction false} StageLength(items: seq<StagedItem>)
    ensures |StageOps(items)| == |items|
    ensures forall i | 0 <= i < |items| :: StageOps(items)[i] == Move(items[i].original, items[i].staged)
  {
    if items != [] {
      StageLength(items[1..]);
    }
  }

  /** Staging up to any step. */
  lemma {:induction false} StagePrefix(w: World, items: seq<StagedItem>, trees: seq<Entry>, k: nat)
    requires Distinct(items) && StagedUpTo(w.disk, items, trees, 0) && k <= |items|
    ensures |StageOps(items)| == |items|
    ensures var v := Run(StageOps(items)[..k], w);
            StagedUpTo(v.disk, items, trees, k) && SameBeyond(w.disk, v.disk, items) && v.db == w.db
  {
    hide Run, Apply, Distinct, SameBeyond, IsPlace, PathsOf, StageOps, StagedUpTo;
    StageLength(items);
    var ops := StageOps(items);
    if k == 0 {
      assert ops[..0] == [];
      RunNone(w);
      SameBeyondSelf(w.disk, items);
    } else {
      StagePrefix(w, items, trees, k - 1);
      assert ops[..k] == ops[..k - 1] + [ops[k - 1]];
      RunConcat(ops[..k - 1], [ops[k - 1]], w);
      RunUpTo3([ops[k - 1]], Run(ops[..k - 1], w));
      StageOne(w, Run(ops[..k - 1], w), items, trees, k - 1);
    }
  }

  lemma StageOne(w: World, v: World, items: seq<StagedItem>, trees: seq<Entry>, k: nat)
    requires Distinct(items) && k < |items| && StagedUpTo(v.disk, items, trees, k) && SameBeyond(w.disk, v.disk, items)
    ensures var after := Apply(Move(items[k].original, items[k].staged), v);
            StagedUpTo(after.disk, items, trees, k + 1) && SameBeyond(w.disk, after.disk, items) && after.db == v.db
  {
    hide IsPlace;
    var item := items[k];
    var after := Apply(Move(item.original, item.staged), v);
    assert PairOf(v.disk, item) == Pair(Some(trees[k]), None);
    forall i | 0 <= i < |items|
      ensures PairOf(after.disk, items[i]) == if i < k + 1 then Pair(None, Some(trees[i])) else Pair(Some(trees[i]), None)
    {
      if i != k {
        assert PathsOf(items[i]) !! PathsOf(item);
        assert items[i].original in PathsOf(items[i]) && items[i].staged in PathsOf(items[i]);
        assert item.original in PathsOf(item) && item.staged in PathsOf(item);
      }
    }
    forall p: Path | !IsPlace(items, p)
      ensures Lookup(w.disk, p) == Lookup(after.disk, p)
    {
      NotPlace(items, p, k);
    }
  }

  lemma NotPlace(items: seq<StagedItem>, p: Path, k: nat)
    requires k < |items| && !IsPlace(items, p)
    ensures p != items[k].original && p != items[k].staged
  {
    assert p !in PathsOf(items[k]);
  }
}
