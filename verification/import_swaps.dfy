/** The swaps of a game import: activating them, undoing them, and telling from the disk which were begun. */
module ImportSwaps {
  import opened Wrappers
  import opened Storage

  const IMPORTS: string := ".atri-imports"

  function StageRoot(stage: string): Path {
    [IMPORTS, stage]
  }

  /** A swap and whether it has been begun. */
  datatype Swap = Swap(item: SwapItem, touched: bool)

  // --- The steps ----------------------------------------------------------------------

  /** Activating one swap: the old tree goes to the backup, the new one takes its place. */
  function ActivateItemOps(disk: Disk, item: SwapItem): seq<Op> {
    (if item.target in disk then [Move(item.target, item.backup)] else [])
    + (if item.incoming.Some? then [Move(item.incoming.value, item.target)] else [])
  }

  function ActivateOps(w: World, items: seq<SwapItem>): seq<Op>
    decreases |items|
  {
    if items == [] then []
    else
      var ops := ActivateItemOps(w.disk, items[0]);
      ops + ActivateOps(Run(ops, w), items[1..])
  }

  /** The flags the process holds in memory after k steps of the activation. */
  function Recorded(w: World, items: seq<SwapItem>, k: nat): seq<Swap>
    decreases |items|
  {
    if items == [] then []
    else
      var ops := ActivateItemOps(w.disk, items[0]);
      [Swap(items[0], k > 0 && |ops| > 0)] + Recorded(Run(ops, w), items[1..], if k <= |ops| then 0 else k - |ops|)
  }

  /** Clearing a path, if there is anything. */
  function ClearOps(w: World, p: Option<Path>): seq<Op> {
    if p.Some? && p.value in w.disk then [RemoveAll(p.value)] else []
  }

  /** Undoing one swap that has been begun: the target and the incoming path are cleared and the backup goes back. */
  function RollbackItemOps(w: World, swap: Swap): seq<Op> {
    var item := swap.item;
    if !swap.touched then []
    else
      var first := ClearOps(w, Some(item.target));
      var second := ClearOps(Run(first, w), item.incoming);
      first + second + if item.backup in Run(second, Run(first, w)).disk then [Move(item.backup, item.target)] else []
  }

  /** Undoing the swaps from the last to the first. */
  function RollbackOps(w: World, swaps: seq<Swap>): seq<Op>
    decreases |swaps|
  {
    if swaps == [] then []
    else
      var last := |swaps| - 1;
      var ops := RollbackItemOps(w, swaps[last]);
      ops + RollbackOps(Run(ops, w), swaps[..last])
  }

  /** What recovery infers from the disk: a swap was begun if its backup exists, or its new tree has left the stage for the target. */
  function Infer(disk: Disk, item: SwapItem): Swap {
    Swap(item, item.backup in disk || (item.incoming.Some? && item.incoming.value !in disk && item.target in disk))
  }

  function InferAll(disk: Disk, items: seq<SwapItem>): (swaps: seq<Swap>)
    ensures |swaps| == |items|
  {
    if items == [] then [] else [Infer(disk, items[0])] + InferAll(disk, items[1..])
  }

  // --- The states a swap can be in -----------------------------------------------------

  /** A swap together with the tree it replaces and the tree it installs. */
  datatype Slot = Slot(item: SwapItem, previous: Option<Entry>, arriving: Option<Entry>)

  /** What is at the target, the backup and the incoming path. */
  datatype Spots = Spots(target: Option<Entry>, backup: Option<Entry>, incoming: Option<Entry>)

  function SpotsOf(disk: Disk, item: SwapItem): Spots {
    Spots(Lookup(disk, item.target), Lookup(disk, item.backup),
          if item.incoming.Some? then Lookup(disk, item.incoming.value) else None)
  }

  function Waiting(slot: Slot): Spots { Spots(slot.previous, None, slot.arriving) }
  function BackedUp(slot: Slot): Spots { Spots(None, slot.previous, slot.arriving) }
  function Installed(slot: Slot): Spots { Spots(slot.arriving, slot.previous, None) }
  function Cleared(slot: Slot): Spots { Spots(None, slot.previous, None) }
  function Restored(slot: Slot): Spots { Spots(slot.previous, None, None) }
  const LOST: Spots := Spots(None, None, None)

  /** The states that activation goes through. */
  predicate Activating(disk: Disk, slot: Slot) {
    var s := SpotsOf(disk, slot.item);
    s == Waiting(slot) || s == BackedUp(slot) || s == Installed(slot)
  }

  /** A replacement of which neither the backup nor the new tree is left in the stage. */
  predicate Mistakable(disk: Disk, slot: Slot) {
    slot.previous.Some? && slot.item.incoming.Some? && slot.item.backup !in disk && slot.item.incoming.value !in disk
  }

  /** The states that activation and rollbacks, interrupted or not, leave behind. */
  predicate Legal(disk: Disk, slot: Slot) {
    var s := SpotsOf(disk, slot.item);
    || Activating(disk, slot) || s == Cleared(slot) || s == Restored(slot)
    || (s == LOST && slot.item.incoming.Some?)
  }

  /** What a complete rollback leaves at the target, and whether it empties the backup and the incoming path. */
  datatype Goal = Goal(target: Option<Entry>, emptied: bool)

  function GoalOf(disk: Disk, slot: Slot): Goal {
    Goal(if Mistakable(disk, slot) then None else slot.previous, Infer(disk, slot.item).touched)
  }

  predicate Reached(disk: Disk, slot: Slot, goal: Goal) {
    var s := SpotsOf(disk, slot.item);
    s.target == goal.target && (goal.emptied ==> s.backup.None? && s.incoming.None?)
  }

  function ItemsOf(slots: seq<Slot>): (items: seq<SwapItem>)
    ensures |items| == |slots|
    ensures forall i | 0 <= i < |slots| :: items[i] == slots[i].item
  {
    if slots == [] then [] else [slots[0].item] + ItemsOf(slots[1..])
  }

  /** The paths of a swap. */
  function PathsOf(item: SwapItem): set<Path> {
    {item.target, item.backup} + if item.incoming.Some? then {item.incoming.value} else {}
  }

  /** Backups and new trees lie inside the stage, targets outside the import workspace. */
  predicate WellPlaced(stage: string, slot: Slot) {
    var item := slot.item;
    && |item.target| > 0 && item.target[0] != IMPORTS
    && StageRoot(stage) <= item.backup
    && (item.incoming.Some? ==> StageRoot(stage) <= item.incoming.value && item.backup != item.incoming.value)
    && (slot.arriving.Some? <==> item.incoming.Some?)
  }

  predicate AllPlaced(stage: string, slots: seq<Slot>) {
    forall i | 0 <= i < |slots| :: WellPlaced(stage, slots[i])
  }

  predicate Disjoint(slots: seq<Slot>) {
    forall i, k | 0 <= i < k < |slots| :: PathsOf(slots[i].item) !! PathsOf(slots[k].item)
  }

  predicate IsSpot(slots: seq<Slot>, p: Path) {
    exists i | 0 <= i < |slots| :: p in PathsOf(slots[i].item)
  }

  /** Trees are entries: below a path of a swap there is nothing else, and no path of another swap. */
  ghost predicate Leaves(disk: Disk, slots: seq<Slot>) {
    forall p: Path, q: Path | IsSpot(slots, q) && (p in disk || IsSpot(slots, p)) && q <= p :: p == q
  }

  /** Two disks agree except at the paths of one swap. */
  ghost predicate SameBut(a: Disk, b: Disk, item: SwapItem) {
    forall p: Path | p !in PathsOf(item) :: Lookup(a, p) == Lookup(b, p)
  }

  /** Two disks agree except at the paths of some swaps. */
  ghost predicate SameElsewhere(a: Disk, b: Disk, slots: seq<Slot>) {
    forall p: Path | !IsSpot(slots, p) :: Lookup(a, p) == Lookup(b, p)
  }

  predicate AllLegal(disk: Disk, slots: seq<Slot>) {
    forall i | 0 <= i < |slots| :: Legal(disk, slots[i])
  }

  predicate AllActivating(disk: Disk, slots: seq<Slot>) {
    forall i | 0 <= i < |slots| :: Activating(disk, slots[i])
  }

  predicate AllWaiting(disk: Disk, slots: seq<Slot>) {
    forall i | 0 <= i < |slots| :: SpotsOf(disk, slots[i].item) == Waiting(slots[i])
  }

  predicate AllInstalled(disk: Disk, slots: seq<Slot>) {
    forall i | 0 <= i < |slots| :: SpotsOf(disk, slots[i].item) == Installed(slots[i])
  }

  // --- One swap ------------------------------------------------------------------------

  lemma PlacedApart(stage: string, slot: Slot)
    requires WellPlaced(stage, slot)
    ensures slot.item.target != slot.item.backup
    ensures slot.item.incoming.Some? ==> slot.item.target != slot.item.incoming.value && slot.item.backup != slot.item.incoming.value
  {
    assert slot.item.backup[0] == StageRoot(stage)[0];
    if slot.item.incoming.Some? {
      assert slot.item.incoming.value[0] == StageRoot(stage)[0];
    }
  }

  /** Every prefix of the activation of a waiting swap leaves it waiting, backed up or installed, and the disk shows which steps were taken. */
  lemma ActivateItem(w: World, stage: string, slot: Slot, k: nat)
    requires WellPlaced(stage, slot) && SpotsOf(w.disk, slot.item) == Waiting(slot)
    requires k <= |ActivateItemOps(w.disk, slot.item)|
    ensures var ops := ActivateItemOps(w.disk, slot.item);
            var after := Run(ops[..k], w);
            && Activating(after.disk, slot)
            && (k == |ops| ==> SpotsOf(after.disk, slot.item) == Installed(slot))
            && Infer(after.disk, slot.item) == Swap(slot.item, k > 0)
            && SameBut(w.disk, after.disk, slot.item) && after.db == w.db
  {
    var ops := ActivateItemOps(w.disk, slot.item);
    PlacedApart(stage, slot);
    RunUpTo3(ops[..k], w);
  }

  /** Removing a path of a swap, below which there is nothing. */
  lemma RemoveSpot(w: World, stage: string, slot: Slot, a: Path)
    requires WellPlaced(stage, slot) && Leaves(w.disk, [slot]) && a in PathsOf(slot.item)
    ensures var after := Apply(RemoveAll(a), w);
            var s := SpotsOf(w.disk, slot.item);
            && (a == slot.item.target ==> SpotsOf(after.disk, slot.item) == s.(target := None))
            && (slot.item.incoming == Some(a) ==> SpotsOf(after.disk, slot.item) == s.(incoming := None))
            && SameBut(w.disk, after.disk, slot.item) && after.db == w.db && Leaves(after.disk, [slot])
  {
    PlacedApart(stage, slot);
    assert IsSpot([slot], a) by {
      assert [slot][0] == slot;
    }
    assert Apply(RemoveAll(a), w).disk == w.disk - {a};
  }

  lemma RestoreSpot(w: World, stage: string, slot: Slot)
    requires WellPlaced(stage, slot) && slot.item.backup in w.disk
    ensures var after := Apply(Move(slot.item.backup, slot.item.target), w);
            var s := SpotsOf(w.disk, slot.item);
            && SpotsOf(after.disk, slot.item) == s.(target := s.backup, backup := None)
            && SameBut(w.disk, after.disk, slot.item) && after.db == w.db
  {
    PlacedApart(stage, slot);
  }

  function TargetCleared(w: World, item: SwapItem): World {
    Run(ClearOps(w, Some(item.target)), w)
  }

  function BothCleared(w: World, item: SwapItem): World {
    var v := TargetCleared(w, item);
    Run(ClearOps(v, item.incoming), v)
  }

  function Undone(w: World, item: SwapItem): World {
    var v := BothCleared(w, item);
    if item.backup in v.disk then Apply(Move(item.backup, item.target), v) else v
  }

  lemma ClearedWorld(w: World, p: Option<Path>)
    ensures Run(ClearOps(w, p), w) == if p.Some? && p.value in w.disk then Apply(RemoveAll(p.value), w) else w
    ensures |ClearOps(w, p)| <= 1
  {
    hide Apply;
    RunUpTo3(ClearOps(w, p), w);
  }

  /** The worlds a rollback of one swap goes through. */
  lemma RollbackWorlds(w: World, swap: Swap, k: nat)
    requires swap.touched && k <= |RollbackItemOps(w, swap)|
    ensures var ops := RollbackItemOps(w, swap);
            var after := Run(ops[..k], w);
            && after in [w, TargetCleared(w, swap.item), BothCleared(w, swap.item), Undone(w, swap.item)]
            && (k == |ops| ==> after == Undone(w, swap.item))
  {
    hide Apply, ClearOps, Run;
    var item := swap.item;
    var first := ClearOps(w, Some(item.target));
    var v1 := Run(first, w);
    var second := ClearOps(v1, item.incoming);
    var v2 := Run(second, v1);
    var third := if item.backup in v2.disk then [Move(item.backup, item.target)] else [];
    var ops := RollbackItemOps(w, swap);
    assert ops == first + (second + third);
    ClearedWorld(w, Some(item.target));
    ClearedWorld(v1, item.incoming);
    RunSplit(first, second + third, w, k);
    if k <= |first| {
      AtMostOneStep(first, k, w);
    }
    if k >= |first| {
      var k2 := k - |first|;
      RunSplit(second, third, v1, k2);
      if k2 <= |second| {
        AtMostOneStep(second, k2, v1);
      }
      if k2 >= |second| {
        AtMostOneStep(third, k2 - |second|, v2);
      }
    }
  }

  lemma AtMostOneStep(ops: seq<Op>, k: nat, w: World)
    requires k <= |ops| <= 1
    ensures Run(ops[..k], w) == if k == 0 then w else Run(ops, w)
    ensures |ops| == 1 ==> Run(ops, w) == Apply(ops[0], w)
    ensures |ops| == 0 ==> Run(ops, w) == w
  {
    hide Apply;
    RunUpTo3(ops[..k], w);
    RunUpTo3(ops, w);
  }

  /** Undoing a swap, completely or not. */
  lemma RollbackItem(w: World, stage: string, slot: Slot, k: nat)
    requires WellPlaced(stage, slot) && Legal(w.disk, slot) && Leaves(w.disk, [slot])
    requires k <= |RollbackItemOps(w, Infer(w.disk, slot.item))|
    ensures var ops := RollbackItemOps(w, Infer(w.disk, slot.item));
            var after := Run(ops[..k], w);
            && Legal(after.disk, slot)
            && (k == |ops| ==> Reached(after.disk, slot, GoalOf(w.disk, slot)))
            && SameBut(w.disk, after.disk, slot.item) && after.db == w.db
  {
    hide Apply, Run, Leaves, WellPlaced;
    var item := slot.item;
    var swap := Infer(w.disk, item);
    if !swap.touched {
      NotBegun(w, stage, slot);
    } else {
      RollbackWorlds(w, swap, k);
      RollbackSpots(w, stage, slot);
    }
  }

  lemma NotBegun(w: World, stage: string, slot: Slot)
    requires WellPlaced(stage, slot) && Legal(w.disk, slot) && !Infer(w.disk, slot.item).touched
    ensures Reached(w.disk, slot, GoalOf(w.disk, slot))
    ensures forall k: nat | k <= 0 :: Run(RollbackItemOps(w, Infer(w.disk, slot.item))[..k], w) == w
  {
    hide Apply;
  }

  lemma RollbackSpots(w: World, stage: string, slot: Slot)
    requires WellPlaced(stage, slot) && Legal(w.disk, slot) && Leaves(w.disk, [slot]) && Infer(w.disk, slot.item).touched
    ensures forall v | v in [TargetCleared(w, slot.item), BothCleared(w, slot.item), Undone(w, slot.item)] ::
              Legal(v.disk, slot) && SameBut(w.disk, v.disk, slot.item) && v.db == w.db
    ensures Reached(Undone(w, slot.item).disk, slot, GoalOf(w.disk, slot))
  {
    hide Apply, Leaves;
    var item := slot.item;
    PlacedApart(stage, slot);
    var v1 := TargetCleared(w, item);
    var v2 := BothCleared(w, item);
    ClearedWorld(w, Some(item.target));
    RemoveSpot(w, stage, slot, item.target);
    ClearedWorld(v1, item.incoming);
    if item.incoming.Some? {
      RemoveSpot(v1, stage, slot, item.incoming.value);
    }
    if item.backup in v2.disk {
      RestoreSpot(v2, stage, slot);
    }
  }

  // --- All swaps -----------------------------------------------------------------------

  lemma SpotsFrame(a: Disk, b: Disk, slots: seq<Slot>, slot: Slot)
    requires SameElsewhere(a, b, slots)
    requires forall i | 0 <= i < |slots| :: PathsOf(slots[i].item) !! PathsOf(slot.item)
    ensures SpotsOf(a, slot.item) == SpotsOf(b, slot.item)
    ensures Infer(a, slot.item) == Infer(b, slot.item)
  {
    var item := slot.item;
    assert !IsSpot(slots, item.target) && !IsSpot(slots, item.backup);
    assert item.incoming.Some? ==> !IsSpot(slots, item.incoming.value);
  }

  lemma SlotsFrame(a: Disk, b: Disk, slots: seq<Slot>, slot: Slot)
    requires SameBut(a, b, slot.item)
    requires forall i | 0 <= i < |slots| :: PathsOf(slots[i].item) !! PathsOf(slot.item)
    ensures forall i | 0 <= i < |slots| :: SpotsOf(a, slots[i].item) == SpotsOf(b, slots[i].item)
    ensures forall i | 0 <= i < |slots| :: Infer(a, slots[i].item) == Infer(b, slots[i].item)
  {
    forall i | 0 <= i < |slots|
      ensures SpotsOf(a, slots[i].item) == SpotsOf(b, slots[i].item) && Infer(a, slots[i].item) == Infer(b, slots[i].item)
    {
      assert [slot][0] == slot;
      assert forall p | !IsSpot([slot], p) :: p !in PathsOf([slot][0].item);
      SpotsFrame(a, b, [slot], slots[i]);
    }
  }

  lemma {:induction false} WaitingFlags(w: World, disk: Disk, slots: seq<Slot>)
    requires AllWaiting(disk, slots)
    requires forall i | 0 <= i < |slots| :: slots[i].arriving.Some? <==> slots[i].item.incoming.Some?
    ensures Recorded(w, ItemsOf(slots), 0) == InferAll(disk, ItemsOf(slots))
    decreases |slots|
  {
    hide Apply, Run, ActivateItemOps;
    if slots != [] {
      TailsOf(slots);
      WaitingFlags(Run(ActivateItemOps(w.disk, slots[0].item), w), disk, slots[1..]);
    }
  }

  lemma TailsOf(slots: seq<Slot>)
    requires slots != []
    ensures ItemsOf(slots)[0] == slots[0].item && ItemsOf(slots)[1..] == ItemsOf(slots[1..])
  {
  }

  lemma {:induction false} FlagsDependOnSpots(a: Disk, b: Disk, slots: seq<Slot>)
    requires forall i | 0 <= i < |slots| :: Infer(a, slots[i].item) == Infer(b, slots[i].item)
    ensures InferAll(a, ItemsOf(slots)) == InferAll(b, ItemsOf(slots))
  {
    if slots != [] {
      TailsOf(slots);
      FlagsDependOnSpots(a, b, slots[1..]);
    }
  }

  lemma SameElsewhereJoin(a: Disk, b: Disk, c: Disk, slots: seq<Slot>)
    requires slots != [] && SameBut(a, b, slots[0].item) && SameElsewhere(b, c, slots[1..])
    ensures SameElsewhere(a, c, slots)
  {
    forall p: Path | !IsSpot(slots, p)
      ensures Lookup(a, p) == Lookup(c, p)
    {
      assert p !in PathsOf(slots[0].item);
      assert forall i | 0 <= i < |slots[1..]| :: slots[1..][i] == slots[i + 1];
      assert !IsSpot(slots[1..], p);
    }
  }

  lemma ActivateUnfold(w: World, slots: seq<Slot>, k: nat)
    requires slots != [] && k <= |ActivateOps(w, ItemsOf(slots))|
    ensures var ops := ActivateOps(w, ItemsOf(slots));
            var first := ActivateItemOps(w.disk, slots[0].item);
            var w1 := Run(first[..|first|], w);
            var others := ActivateOps(w1, ItemsOf(slots[1..]));
            && |ops| == |first| + |others|
            && (k <= |first| ==> Run(ops[..k], w) == Run(first[..k], w))
            && (k >= |first| ==> Run(ops[..k], w) == Run(others[..k - |first|], w1))
  {
    hide Apply, ActivateItemOps;
    TailsOf(slots);
    var first := ActivateItemOps(w.disk, slots[0].item);
    assert first[..|first|] == first;
    RunSplit(first, ActivateOps(Run(first, w), ItemsOf(slots[1..])), w, k);
  }

  lemma SlotsCons(stage: string, slots: seq<Slot>)
    requires slots != [] && AllPlaced(stage, slots) && Disjoint(slots)
    ensures AllPlaced(stage, slots[1..]) && Disjoint(slots[1..]) && WellPlaced(stage, slots[0])
    ensures var rest := slots[1..]; forall i | 0 <= i < |rest| :: PathsOf(rest[i].item) !! PathsOf(slots[0].item)
  {
    hide WellPlaced, PathsOf;
  }

  lemma SameActivating(a: Disk, b: Disk, slot: Slot)
    requires SpotsOf(a, slot.item) == SpotsOf(b, slot.item)
    ensures Activating(a, slot) <==> Activating(b, slot)
  {
  }

  lemma WaitingActivates(a: Disk, b: Disk, slots: seq<Slot>)
    requires AllWaiting(a, slots) && forall i | 0 <= i < |slots| :: SpotsOf(a, slots[i].item) == SpotsOf(b, slots[i].item)
    ensures AllWaiting(b, slots) && AllActivating(b, slots)
  {
    hide SpotsOf;
  }

  lemma ActivateNone(w: World, slots: seq<Slot>, k: nat)
    requires slots == [] && k <= |ActivateOps(w, ItemsOf(slots))|
    ensures k == 0 && ActivateOps(w, ItemsOf(slots)) == []
    ensures Run(ActivateOps(w, ItemsOf(slots))[..k], w) == w
    ensures Recorded(w, ItemsOf(slots), k) == InferAll(w.disk, ItemsOf(slots))
    ensures SameElsewhere(w.disk, w.disk, slots)
  {
  }

  lemma JoinFirst(disk: Disk, slots: seq<Slot>)
    requires slots != [] && AllActivating(disk, slots[1..]) && Activating(disk, slots[0])
    ensures AllActivating(disk, slots)
    ensures AllInstalled(disk, slots[1..]) && SpotsOf(disk, slots[0].item) == Installed(slots[0]) ==> AllInstalled(disk, slots)
  {
    hide Activating, SpotsOf, Installed;
    var rest := slots[1..];
    assert forall i | 0 < i < |slots| :: slots[i] == rest[i - 1];
  }

  lemma RecordedStep(w: World, slots: seq<Slot>, k: nat, disk: Disk)
    requires slots != [] && k <= |ActivateOps(w, ItemsOf(slots))|
    requires var first := ActivateItemOps(w.disk, slots[0].item);
             && Infer(disk, slots[0].item) == Swap(slots[0].item, k > 0 && |first| > 0)
             && Recorded(Run(first, w), ItemsOf(slots[1..]), if k <= |first| then 0 else k - |first|) == InferAll(disk, ItemsOf(slots[1..]))
    ensures Recorded(w, ItemsOf(slots), k) == InferAll(disk, ItemsOf(slots))
  {
    hide ActivateItemOps, Run, Infer, ActivateOps;
    TailsOf(slots);
  }

  /** Activation up to any step: every swap is waiting, backed up or installed, and the flags recorded in memory are the ones the disk shows. */
  lemma {:induction false} ActivatePrefix(w: World, stage: string, slots: seq<Slot>, k: nat)
    requires AllPlaced(stage, slots) && Disjoint(slots) && AllWaiting(w.disk, slots)
    requires k <= |ActivateOps(w, ItemsOf(slots))|
    ensures var ops := ActivateOps(w, ItemsOf(slots));
            var after := Run(ops[..k], w);
            && AllActivating(after.disk, slots)
            && (k == |ops| ==> AllInstalled(after.disk, slots))
            && Recorded(w, ItemsOf(slots), k) == InferAll(after.disk, ItemsOf(slots))
            && SameElsewhere(w.disk, after.disk, slots) && after.db == w.db
    decreases |slots|
  {
    hide Apply, Run, ActivateItemOps, ActivateOps, PathsOf, WellPlaced, SpotsOf, Lookup, Infer, SameBut, SameElsewhere, Activating, Disjoint, AllPlaced, Recorded, InferAll, Installed, Waiting;
    if slots == [] {
      ActivateNone(w, slots, k);
    } else {
      ActivateUnfold(w, slots, k);
      SlotsCons(stage, slots);
      TailsOf(slots);
      var slot, rest := slots[0], slots[1..];
      var first := ActivateItemOps(w.disk, slot.item);
      var ops := ActivateOps(w, ItemsOf(slots));
      var k1 := if k < |first| then k else |first|;
      var v := Run(first[..k1], w);
      var after := Run(ops[..k], w);
      ActivateItem(w, stage, slot, k1);
      SlotsFrame(w.disk, v.disk, rest, slot);
      WaitingActivates(w.disk, v.disk, rest);
      if k < |first| {
        ArrivingOf(stage, rest);
        WaitingFlags(Run(first, w), after.disk, rest);
        SameElsewhereSelf(after.disk, rest);
      } else {
        assert first[..|first|] == first;
        ActivatePrefix(v, stage, rest, k - |first|);
        SpotsFrame(v.disk, after.disk, rest, slot);
        SameActivating(v.disk, after.disk, slot);
      }
      RecordedStep(w, slots, k, after.disk);
      JoinFirst(after.disk, slots);
      SameElsewhereJoin(w.disk, v.disk, after.disk, slots);
    }
  }

  lemma ArrivingOf(stage: string, slots: seq<Slot>)
    requires AllPlaced(stage, slots)
    ensures forall i | 0 <= i < |slots| :: slots[i].arriving.Some? <==> slots[i].item.incoming.Some?
  {
  }

  lemma SameElsewhereSelf(a: Disk, slots: seq<Slot>)
    ensures SameElsewhere(a, a, slots)
  {
  }

  // --- Undoing all swaps ---------------------------------------------------------------

  lemma {:induction false} InitsOf(disk: Disk, slots: seq<Slot>)
    requires slots != []
    ensures var last := |slots| - 1;
            && ItemsOf(slots)[..last] == ItemsOf(slots[..last])
            && InferAll(disk, ItemsOf(slots)) == InferAll(disk, ItemsOf(slots[..last])) + [Infer(disk, slots[last].item)]
  {
    hide Infer;
    if |slots| > 1 {
      TailsOf(slots);
      InitsOf(disk, slots[1..]);
      assert slots[1..][..|slots| - 2] == slots[..|slots| - 1][1..];
      TailsOf(slots[..|slots| - 1]);
    }
  }

  lemma LeavesOfOne(disk: Disk, slots: seq<Slot>, i: nat)
    requires i < |slots| && Leaves(disk, slots)
    ensures Leaves(disk, [slots[i]])
  {
    hide PathsOf;
    forall p: Path, q: Path | IsSpot([slots[i]], q) && (p in disk || IsSpot([slots[i]], p)) && q <= p
      ensures p == q
    {
      assert q in PathsOf([slots[i]][0].item) && IsSpot(slots, q);
      if p !in disk {
        assert p in PathsOf([slots[i]][0].item) && IsSpot(slots, p);
      }
    }
  }

  lemma LeavesOfMost(a: Disk, b: Disk, slots: seq<Slot>)
    requires slots != [] && Leaves(a, slots) && SameBut(a, b, slots[|slots| - 1].item)
    ensures Leaves(b, slots[..|slots| - 1])
  {
    hide PathsOf;
    var init := slots[..|slots| - 1];
    forall p: Path, q: Path | IsSpot(init, q) && (p in b || IsSpot(init, p)) && q <= p
      ensures p == q
    {
      SpotOfInit(slots, q);
      SpotOfInit(slots, p);
      if p !in PathsOf(slots[|slots| - 1].item) {
        assert Lookup(a, p) == Lookup(b, p);
      }
    }
  }

  lemma SpotOfInit(slots: seq<Slot>, p: Path)
    requires slots != []
    ensures IsSpot(slots[..|slots| - 1], p) || p in PathsOf(slots[|slots| - 1].item) ==> IsSpot(slots, p)
  {
    if IsSpot(slots[..|slots| - 1], p) {
      var i :| 0 <= i < |slots| - 1 && p in PathsOf(slots[..|slots| - 1][i].item);
      assert slots[..|slots| - 1][i] == slots[i];
    }
  }

  lemma SameElsewhereSnoc(a: Disk, b: Disk, c: Disk, slots: seq<Slot>)
    requires slots != [] && SameBut(a, b, slots[|slots| - 1].item) && SameElsewhere(b, c, slots[..|slots| - 1])
    ensures SameElsewhere(a, c, slots)
  {
    hide PathsOf;
    forall p: Path | !IsSpot(slots, p)
      ensures Lookup(a, p) == Lookup(c, p)
    {
      SpotOfInit(slots, p);
    }
  }

  lemma SameSpots(a: Disk, b: Disk, slot: Slot)
    requires SpotsOf(a, slot.item) == SpotsOf(b, slot.item)
    requires Infer(a, slot.item) == Infer(b, slot.item)
    ensures Legal(a, slot) <==> Legal(b, slot)
    ensures GoalOf(a, slot) == GoalOf(b, slot)
    ensures forall goal :: Reached(a, slot, goal) <==> Reached(b, slot, goal)
  {
  }

  lemma SlotsSnoc(stage: string, slots: seq<Slot>)
    requires slots != [] && AllPlaced(stage, slots) && Disjoint(slots)
    ensures var last := |slots| - 1;
            && AllPlaced(stage, slots[..last]) && Disjoint(slots[..last]) && WellPlaced(stage, slots[last])
            && forall i | 0 <= i < last :: PathsOf(slots[..last][i].item) !! PathsOf(slots[last].item)
  {
    hide WellPlaced, PathsOf;
  }

  function LastUndo(w: World, slots: seq<Slot>): seq<Op>
    requires slots != []
  {
    RollbackItemOps(w, Infer(w.disk, slots[|slots| - 1].item))
  }

  /** What undoing the last swap leaves for the others. */
  ghost predicate OthersKeep(a: Disk, b: Disk, others: seq<Slot>) {
    && AllLegal(b, others) && Leaves(b, others)
    && (forall i | 0 <= i < |others| :: GoalOf(a, others[i]) == GoalOf(b, others[i]))
    && InferAll(b, ItemsOf(others)) == InferAll(a, ItemsOf(others))
  }

  /** Undoing the last swap up to any step, seen from the others. */
  lemma RollbackLast(w: World, stage: string, slots: seq<Slot>, k: nat)
    requires slots != [] && AllPlaced(stage, slots) && Disjoint(slots) && AllLegal(w.disk, slots) && Leaves(w.disk, slots)
    requires k <= |LastUndo(w, slots)|
    ensures var slot := slots[|slots| - 1];
            var v := Run(LastUndo(w, slots)[..k], w);
            && Legal(v.disk, slot) && SameBut(w.disk, v.disk, slot.item) && v.db == w.db
            && (k == |LastUndo(w, slots)| ==> Reached(v.disk, slot, GoalOf(w.disk, slot)))
            && OthersKeep(w.disk, v.disk, slots[..|slots| - 1])
  {
    hide Apply, Run, RollbackItemOps, PathsOf, WellPlaced, SpotsOf, Lookup, Infer, Legal, GoalOf, Reached, Leaves, Disjoint, AllPlaced;
    SlotsSnoc(stage, slots);
    var last := |slots| - 1;
    var slot, rest := slots[last], slots[..last];
    var v := Run(LastUndo(w, slots)[..k], w);
    LeavesOfOne(w.disk, slots, last);
    RollbackItem(w, stage, slot, k);
    SlotsFrame(w.disk, v.disk, rest, slot);
    RestLegal(w.disk, v.disk, slots);
    FlagsDependOnSpots(w.disk, v.disk, rest);
    LeavesOfMost(w.disk, v.disk, slots);
  }

  lemma RollbackUnfold(w: World, slots: seq<Slot>, k: nat)
    requires slots != [] && k <= |RollbackOps(w, InferAll(w.disk, ItemsOf(slots)))|
    ensures var last := |slots| - 1;
            var ops := RollbackOps(w, InferAll(w.disk, ItemsOf(slots)));
            var first := LastUndo(w, slots);
            var w1 := Run(first[..|first|], w);
            var others := RollbackOps(w1, InferAll(w.disk, ItemsOf(slots[..last])));
            && |ops| == |first| + |others|
            && (k <= |first| ==> Run(ops[..k], w) == Run(first[..k], w))
            && (k >= |first| ==> Run(ops[..k], w) == Run(others[..k - |first|], w1))
  {
    hide Apply, RollbackItemOps, Infer;
    InitsOf(w.disk, slots);
    var last := |slots| - 1;
    var first := LastUndo(w, slots);
    assert first[..|first|] == first;
    var swaps := InferAll(w.disk, ItemsOf(slots));
    assert swaps[last] == Infer(w.disk, slots[last].item) && swaps[..last] == InferAll(w.disk, ItemsOf(slots[..last]));
    RunSplit(first, RollbackOps(Run(first, w), InferAll(w.disk, ItemsOf(slots[..last]))), w, k);
  }

  predicate RolledBack(before: Disk, after: Disk, slots: seq<Slot>) {
    forall i | 0 <= i < |slots| :: Reached(after, slots[i], GoalOf(before, slots[i]))
  }

  lemma JoinLast(before: Disk, v: Disk, after: Disk, slots: seq<Slot>)
    requires slots != []
    requires AllLegal(after, slots[..|slots| - 1]) && Legal(after, slots[|slots| - 1])
    ensures AllLegal(after, slots)
    ensures
      && RolledBack(v, after, slots[..|slots| - 1])
      && (forall i | 0 <= i < |slots| - 1 :: GoalOf(before, slots[i]) == GoalOf(v, slots[i]))
      && Reached(after, slots[|slots| - 1], GoalOf(before, slots[|slots| - 1]))
      ==> RolledBack(before, after, slots)
  {
    hide Legal, Reached, GoalOf;
    var rest := slots[..|slots| - 1];
    assert forall i | 0 <= i < |rest| :: slots[i] == rest[i];
  }

  /** Undoing all swaps up to any step. */
  lemma {:induction false} RollbackPrefix(w: World, stage: string, slots: seq<Slot>, k: nat)
    requires AllPlaced(stage, slots) && Disjoint(slots) && AllLegal(w.disk, slots) && Leaves(w.disk, slots)
    requires k <= |RollbackOps(w, InferAll(w.disk, ItemsOf(slots)))|
    ensures var ops := RollbackOps(w, InferAll(w.disk, ItemsOf(slots)));
            var after := Run(ops[..k], w);
            && AllLegal(after.disk, slots)
            && (k == |ops| ==> RolledBack(w.disk, after.disk, slots))
            && SameElsewhere(w.disk, after.disk, slots) && after.db == w.db
    decreases |slots|
  {
    hide Apply, Run, RollbackItemOps, PathsOf, WellPlaced, SpotsOf, Lookup, Infer, Legal, GoalOf, Reached, Leaves, Disjoint, AllPlaced, SameBut, SameElsewhere, InferAll, ItemsOf, LastUndo;
    var ops := RollbackOps(w, InferAll(w.disk, ItemsOf(slots)));
    if slots == [] {
      RunNone(w);
      assert ops[..0] == [];
      SameElsewhereSelf(w.disk, slots);
    } else {
      SlotsSnoc(stage, slots);
      RollbackUnfold(w, slots, k);
      var last := |slots| - 1;
      var slot, rest := slots[last], slots[..last];
      var first := LastUndo(w, slots);
      var k1 := if k < |first| then k else |first|;
      RollbackLast(w, stage, slots, k1);
      var v := Run(first[..k1], w);
      var after := Run(ops[..k], w);
      if k < |first| {
        SameElsewhereSelf(v.disk, rest);
      } else {
        RollbackPrefix(v, stage, rest, k - |first|);
        SpotsFrame(v.disk, after.disk, rest, slot);
        SameSpots(v.disk, after.disk, slot);
      }
      JoinLast(w.disk, v.disk, after.disk, slots);
      SameElsewhereSnoc(w.disk, v.disk, after.disk, slots);
    }
  }

  lemma RestLegal(a: Disk, b: Disk, slots: seq<Slot>)
    requires slots != [] && AllLegal(a, slots)
    requires var rest := slots[..|slots| - 1];
             forall i | 0 <= i < |rest| :: SpotsOf(a, rest[i].item) == SpotsOf(b, rest[i].item) && Infer(a, rest[i].item) == Infer(b, rest[i].item)
    ensures AllLegal(b, slots[..|slots| - 1])
    ensures forall i | 0 <= i < |slots| - 1 :: Legal(b, slots[i]) && GoalOf(a, slots[i]) == GoalOf(b, slots[i])
  {
    hide SpotsOf, Legal, GoalOf, Infer;
    forall i | 0 <= i < |slots| - 1
      ensures Legal(b, slots[i]) && GoalOf(a, slots[i]) == GoalOf(b, slots[i])
    {
      assert slots[..|slots| - 1][i] == slots[i];
      SameSpots(a, b, slots[i]);
    }
  }
}
