/** Startup recovery of game imports, over the directories found in the import workspace. */
module ImportRecovery {
  import opened Wrappers
  import opened Storage
  import opened ImportSwaps
  import opened Text

  function ManifestPath(stage: string): Path {
    StageRoot(stage) + ["install.json"]
  }

  predicate InWorkspace(p: Path) {
    |p| > 0 && p[0] == IMPORTS
  }

  predicate Committed(w: World, token: string) {
    token in w.db.packages.Values
  }

  datatype Load = Missing | Invalid | Loaded(token: string, items: seq<SwapItem>)

  /** A target is the asset root or a path below that does not climb; backups and new trees lie in the stage. */
  predicate ValidItem(stage: string, item: SwapItem) {
    && (item.target == [] || Clean(item.target))
    && Clean(item.backup) && StageRoot(stage) <= item.backup
    && (item.incoming.Some? ==> Clean(item.incoming.value) && StageRoot(stage) <= item.incoming.value)
  }

  predicate ValidManifest(stage: string, token: string, slug: string, items: seq<SwapItem>) {
    SafeBundleName(slug) && Trim(token) != "" && items != [] && forall i | 0 <= i < |items| :: ValidItem(stage, items[i])
  }

  function LoadManifest(disk: Disk, stage: string): Load {
    match Lookup(disk, ManifestPath(stage))
    case None => Missing
    case Some(ImportManifest(token, slug, items)) => if ValidManifest(stage, token, slug, items) then Loaded(token, items) else Invalid
    case Some(_) => Invalid
  }

  /** The target leads straight down from the asset root; backup and new tree do so too, and lie in the stage. */
  predicate Placed(stage: string, item: SwapItem) {
    && Walk([], item.target) == item.target
    && [".atri-imports", stage] <= item.backup && Walk([], item.backup) == item.backup
    && (item.incoming.Some? ==> [".atri-imports", stage] <= item.incoming.value && Walk([], item.incoming.value) == item.incoming.value)
  }

  lemma StraightExactly(p: Path)
    ensures p == [] || Clean(p) <==> Walk([], p) == p
  {
    hide Clean;
    CleanExactly([], p);
    assert [] + p == p;
    assert Walk([], []) == [];
  }

  lemma PlacedExactly(stage: string, item: SwapItem)
    ensures ValidItem(stage, item) <==> Placed(stage, item)
  {
    hide Clean, Walk;
    StraightExactly(item.target);
    StraightExactly(item.backup);
    if item.incoming.Some? {
      StraightExactly(item.incoming.value);
    }
  }

  /** A manifest loads exactly if it is where it should be, its slug is a plain name, its token not blank, and it has items, all of them placed as they should be. */
  lemma LoadsExactly(disk: Disk, stage: string, token: string, items: seq<SwapItem>)
    ensures LoadManifest(disk, stage) == Loaded(token, items) <==>
      && (exists slug: string :: Lookup(disk, [".atri-imports", stage, "install.json"]) == Some(ImportManifest(token, slug, items)) && SafeBundleName(slug))
      && !AllBlank(token) && items != [] && forall i | 0 <= i < |items| :: Placed(stage, items[i])
  {
    hide SafeBundleName, Trim, ValidItem, Placed, AllBlank;
    TrimBlank(token);
    assert ManifestPath(stage) == [".atri-imports", stage, "install.json"];
    forall i | 0 <= i < |items|
      ensures ValidItem(stage, items[i]) <==> Placed(stage, items[i])
    {
      PlacedExactly(stage, items[i]);
    }
  }

  /** A committed stage is dropped, an uncommitted one undone and then dropped, a directory without a manifest removed; one with a bad manifest stays. */
  function RecoverStageOps(w: World, stage: string): seq<Op> {
    match LoadManifest(w.disk, stage)
    case Missing => [RemoveAll(StageRoot(stage))]
    case Loaded(token, items) =>
      if Committed(w, token) then [RemoveAll(StageRoot(stage))]
      else RollbackOps(w, InferAll(w.disk, items)) + [RemoveAll(StageRoot(stage))]
    case Invalid => []
  }

  function RecoverOps(w: World, names: seq<string>): seq<Op>
    decreases |names|
  {
    if names == [] then []
    else
      var ops := RecoverStageOps(w, names[0]);
      ops + RecoverOps(Run(ops, w), names[1..])
  }

  /** No manifest is bad when its turn comes. */
  predicate RecoverSound(w: World, names: seq<string>)
    decreases |names|
  {
    names == [] || (!LoadManifest(w.disk, names[0]).Invalid? && RecoverSound(Run(RecoverStageOps(w, names[0]), w), names[1..]))
  }

  /** The names list every directory of the workspace. */
  ghost predicate Listed(disk: Disk, names: seq<string>) {
    forall p | p in disk && InWorkspace(p) :: |p| > 1 && p[1] in names
  }

  // --- Directories that are only removed -----------------------------------------------

  /** No directory of the workspace holds anything to undo. */
  ghost predicate Sweepable(w: World) {
    forall s: string | ManifestPath(s) in w.disk ::
      var load := LoadManifest(w.disk, s); load.Loaded? && Committed(w, load.token)
  }

  /** Nothing has changed outside the workspace. */
  ghost predicate SameOutside(a: Disk, b: Disk) {
    forall p: Path | !InWorkspace(p) :: Lookup(a, p) == Lookup(b, p)
  }

  lemma RemoveStage(w: World, stage: string)
    ensures var after := Apply(RemoveAll(StageRoot(stage)), w);
            && after.db == w.db
            && forall p: Path :: Lookup(after.disk, p) == if StageRoot(stage) <= p then None else Lookup(w.disk, p)
  {
  }

  lemma StageInWorkspace(stage: string, p: Path)
    requires StageRoot(stage) <= p
    ensures InWorkspace(p) && |p| > 1 && p[1] == stage
  {
    assert p[0] == StageRoot(stage)[0] && p[1] == StageRoot(stage)[1];
  }

  lemma InsideStage(p: Path)
    requires InWorkspace(p) && |p| > 1
    ensures StageRoot(p[1]) <= p
  {
    assert p[..2] == StageRoot(p[1]);
  }

  lemma RemoveStageKeeps(w: World, stage: string, names: seq<string>)
    requires names != [] && names[0] == stage
    ensures var after := Apply(RemoveAll(StageRoot(stage)), w);
            && SameOutside(w.disk, after.disk)
            && (Sweepable(w) ==> Sweepable(after))
            && (Listed(w.disk, names) ==> Listed(after.disk, names[1..]))
            && after.disk.Keys <= w.disk.Keys
  {
    hide Apply, StageRoot;
    RemoveStage(w, stage);
    var after := Apply(RemoveAll(StageRoot(stage)), w);
    forall p: Path | !InWorkspace(p)
      ensures Lookup(w.disk, p) == Lookup(after.disk, p)
    {
      if StageRoot(stage) <= p {
        StageInWorkspace(stage, p);
      }
    }
    forall p: Path | p in after.disk
      ensures p in w.disk && after.disk[p] == w.disk[p]
    {
      assert Lookup(after.disk, p).Some?;
      assert Lookup(w.disk, p) == Lookup(after.disk, p);
    }
    if Listed(w.disk, names) {
      forall p | p in after.disk && InWorkspace(p)
        ensures |p| > 1 && p[1] in names[1..]
      {
        InsideStage(p);
        assert Lookup(after.disk, p).Some?;
        assert p[1] != stage && p[1] in names;
      }
    }
  }

  /** Removing directories one after another, up to any step. */
  lemma {:induction false} Sweep(w: World, names: seq<string>, k: nat)
    requires Sweepable(w) && k <= |RecoverOps(w, names)|
    ensures RecoverSound(w, names)
    ensures var ops := RecoverOps(w, names);
            var after := Run(ops[..k], w);
            && Sweepable(after) && after.db == w.db && SameOutside(w.disk, after.disk)
            && (k == |ops| && Listed(w.disk, names) ==> forall p | p in after.disk :: !InWorkspace(p))
    decreases |names|
  {
    hide Apply, Run, ManifestPath, StageRoot, Listed, SameOutside, Sweepable, Committed, InWorkspace;
    var ops := RecoverOps(w, names);
    if k == 0 {
      RunNone(w);
      assert ops[..0] == [];
      SameOutsideJoin(w.disk, w.disk, w.disk);
    }
    if names == [] {
      NothingListed(w.disk);
    } else {
      var first := [RemoveAll(StageRoot(names[0]))];
      SweepStage(w, names[0]);
      var w1 := Apply(first[0], w);
      RunOne(first[0], w);
      RemoveStage(w, names[0]);
      RemoveStageKeeps(w, names[0], names);
      Sweep(w1, names[1..], 0);
      if k > 0 {
        RunSplit(first, RecoverOps(w1, names[1..]), w, k);
        Sweep(w1, names[1..], k - 1);
        SameOutsideJoin(w.disk, w1.disk, Run(ops[..k], w).disk);
      }
    }
  }

  lemma NothingListed(disk: Disk)
    ensures Listed(disk, []) ==> forall p | p in disk :: !InWorkspace(p)
  {
  }

  lemma SameOutsideJoin(a: Disk, b: Disk, c: Disk)
    ensures SameOutside(a, a)
    ensures SameOutside(a, b) && SameOutside(b, c) ==> SameOutside(a, c)
  {
  }

  lemma SweepStage(w: World, stage: string)
    requires Sweepable(w)
    ensures RecoverStageOps(w, stage) == [RemoveAll(StageRoot(stage))] && !LoadManifest(w.disk, stage).Invalid?
  {
  }

  // --- A directory with swaps to undo --------------------------------------------------

  /** One stage waits to be undone, in a state that activation or an earlier recovery left; every other directory is only to be removed. */
  ghost predicate Pending(w: World, stage: string, slots: seq<Slot>, token: string) {
    && LoadManifest(w.disk, stage) == Loaded(token, ItemsOf(slots))
    && !IsSpot(slots, ManifestPath(stage)) && !Committed(w, token)
    && Undoable(w.disk, stage, slots)
    && forall s: string | s != stage :: ManifestPath(s) !in w.disk
  }

  ghost predicate Undoable(disk: Disk, stage: string, slots: seq<Slot>) {
    AllPlaced(stage, slots) && Disjoint(slots) && AllLegal(disk, slots) && Leaves(disk, slots)
  }

  /** Outside the workspace only targets of the swaps may have changed. */
  ghost predicate SameButTargets(a: Disk, b: Disk, slots: seq<Slot>) {
    forall p: Path | !InWorkspace(p) && !IsSpot(slots, p) :: Lookup(a, p) == Lookup(b, p)
  }

  /** Every target holds what undoing the swaps puts there. */
  predicate Landed(before: Disk, after: Disk, slots: seq<Slot>) {
    forall i | 0 <= i < |slots| :: Lookup(after, slots[i].item.target) == GoalOf(before, slots[i]).target
  }

  lemma PlacedPaths(stage: string, slot: Slot)
    requires WellPlaced(stage, slot)
    ensures !InWorkspace(slot.item.target)
    ensures StageRoot(stage) <= slot.item.backup
    ensures slot.item.incoming.Some? ==> StageRoot(stage) <= slot.item.incoming.value
    ensures forall p | p in PathsOf(slot.item) :: p == slot.item.target || StageRoot(stage) <= p
  {
  }

  /** Removing another directory leaves a swap as it is. */
  lemma OtherStage(w: World, stage: string, other: string, slot: Slot)
    requires WellPlaced(stage, slot) && other != stage
    ensures var after := Apply(RemoveAll(StageRoot(other)), w);
            SpotsOf(w.disk, slot.item) == SpotsOf(after.disk, slot.item) && Infer(w.disk, slot.item) == Infer(after.disk, slot.item)
  {
    hide StageRoot, Apply, WellPlaced;
    RemoveStage(w, other);
    PlacedPaths(stage, slot);
    var after := Apply(RemoveAll(StageRoot(other)), w);
    forall p | p in PathsOf(slot.item)
      ensures Lookup(w.disk, p) == Lookup(after.disk, p)
    {
      if StageRoot(other) <= p {
        StageInWorkspace(other, p);
        if StageRoot(stage) <= p {
          StageInWorkspace(stage, p);
        }
      }
    }
  }

  lemma OtherStages(w: World, stage: string, other: string, slots: seq<Slot>)
    requires Undoable(w.disk, stage, slots) && other != stage
    ensures var after := Apply(RemoveAll(StageRoot(other)), w);
            && Undoable(after.disk, stage, slots)
            && forall i | 0 <= i < |slots| :: GoalOf(w.disk, slots[i]) == GoalOf(after.disk, slots[i])
  {
    hide Apply, StageRoot, WellPlaced, PathsOf, SpotsOf, Infer, Legal, GoalOf, IsSpot;
    var after := Apply(RemoveAll(StageRoot(other)), w);
    forall i | 0 <= i < |slots|
      ensures Legal(after.disk, slots[i]) && GoalOf(w.disk, slots[i]) == GoalOf(after.disk, slots[i])
    {
      OtherStage(w, stage, other, slots[i]);
      SameSpots(w.disk, after.disk, slots[i]);
    }
    RemoveStage(w, other);
    forall p | p in after.disk
      ensures p in w.disk
    {
      assert Lookup(after.disk, p).Some?;
    }
  }

  /** Removing another directory leaves the stage pending. */
  lemma PendingOther(w: World, stage: string, slots: seq<Slot>, token: string, other: string)
    requires Pending(w, stage, slots, token) && other != stage
    ensures RecoverStageOps(w, other) == [RemoveAll(StageRoot(other))] && !LoadManifest(w.disk, other).Invalid?
    ensures var after := Apply(RemoveAll(StageRoot(other)), w);
            Pending(after, stage, slots, token) && forall i | 0 <= i < |slots| :: GoalOf(w.disk, slots[i]) == GoalOf(after.disk, slots[i])
  {
    hide Apply, StageRoot, Undoable, GoalOf, IsSpot, Committed, ItemsOf;
    OtherStages(w, stage, other, slots);
    RemoveStage(w, other);
    var after := Apply(RemoveAll(StageRoot(other)), w);
    if StageRoot(other) <= ManifestPath(stage) {
      StageInWorkspace(other, ManifestPath(stage));
      StageInWorkspace(stage, ManifestPath(stage));
    }
    SameCommitted(w, after, token);
    forall s: string | s != stage
      ensures ManifestPath(s) !in after.disk
    {
      assert ManifestPath(s) !in w.disk;
      assert Lookup(after.disk, ManifestPath(s)) == None;
    }
  }

  lemma SameCommitted(a: World, b: World, token: string)
    requires a.db == b.db
    ensures Committed(a, token) <==> Committed(b, token)
  {
  }

  /** Spots of the swaps are the only paths a rollback changes, and none of them is a manifest. */
  lemma StillPending(w: World, v: World, stage: string, slots: seq<Slot>, token: string)
    requires Pending(w, stage, slots, token) && v.db == w.db
    requires AllLegal(v.disk, slots) && SameElsewhere(w.disk, v.disk, slots)
    ensures Pending(v, stage, slots, token) && SameButTargets(w.disk, v.disk, slots)
  {
    hide StageRoot, AllLegal, Committed, ItemsOf, WellPlaced, PathsOf, AllPlaced, Disjoint, IsSpot;
    SameCommitted(w, v, token);
    forall p: Path, q: Path | IsSpot(slots, q) && (p in v.disk || IsSpot(slots, p)) && q <= p
      ensures p == q
    {
      if !IsSpot(slots, p) {
        assert Lookup(w.disk, p) == Lookup(v.disk, p);
      }
    }
    forall s: string | s != stage
      ensures ManifestPath(s) !in v.disk
    {
      SpotsInStage(stage, slots, s);
      assert Lookup(w.disk, ManifestPath(s)) == None;
    }
  }

  lemma SpotsInStage(stage: string, slots: seq<Slot>, other: string)
    requires AllPlaced(stage, slots) && other != stage
    ensures !IsSpot(slots, ManifestPath(other))
  {
    hide WellPlaced, PathsOf, StageRoot;
    if IsSpot(slots, ManifestPath(other)) {
      var i :| 0 <= i < |slots| && ManifestPath(other) in PathsOf(slots[i].item);
      PlacedPaths(stage, slots[i]);
      StageInWorkspace(other, ManifestPath(other));
      if StageRoot(stage) <= ManifestPath(other) {
        StageInWorkspace(stage, ManifestPath(other));
      }
    }
  }

  /** Recovering the pending stage itself, up to any step. */
  lemma PendingStage(w: World, stage: string, slots: seq<Slot>, token: string, names: seq<string>, k: nat)
    requires Pending(w, stage, slots, token) && k <= |RecoverStageOps(w, stage)|
    requires names != [] && names[0] == stage
    ensures var ops := RecoverStageOps(w, stage);
            var after := Run(ops[..k], w);
            && after.db == w.db && SameButTargets(w.disk, after.disk, slots)
            && (k < |ops| ==> Pending(after, stage, slots, token))
            && (k == |ops| ==> Sweepable(after) && Landed(w.disk, after.disk, slots)
                               && (Listed(w.disk, names) ==> Listed(after.disk, names[1..])))
  {
    hide Apply, StageRoot, Committed, ItemsOf, InferAll, WellPlaced, PathsOf, SpotsOf, AllPlaced, AllLegal, Disjoint, Leaves, IsSpot, Sweepable, SameButTargets, Landed, Listed, RollbackOps, ManifestPath, Legal, Run, SameOutside;
    var undo := RollbackOps(w, InferAll(w.disk, ItemsOf(slots)));
    var ops := RecoverStageOps(w, stage);
    assert ops == undo + [RemoveAll(StageRoot(stage))];
    var last := [RemoveAll(StageRoot(stage))];
    RunSplit(undo, last, w, k);
    if k < |ops| {
      RollbackPrefix(w, stage, slots, k);
      StillPending(w, Run(undo[..k], w), stage, slots, token);
    } else {
      RollbackPrefix(w, stage, slots, |undo|);
      assert undo[..|undo|] == undo && last[..1] == last;
      var v := Run(undo, w);
      var after := Apply(last[0], v);
      RunOne(last[0], v);
      StillPending(w, v, stage, slots, token);
      RemoveStage(v, stage);
      RemoveStageKeeps(v, stage, names);
      PendingGone(v, stage, slots, token);
      ListedAfter(w.disk, v.disk, stage, slots, names);
      LandedThen(w.disk, v.disk, after.disk, stage, slots);
    }
  }

  lemma PendingGone(v: World, stage: string, slots: seq<Slot>, token: string)
    requires Pending(v, stage, slots, token)
    ensures Sweepable(Apply(RemoveAll(StageRoot(stage)), v))
  {
    hide Apply, Undoable, StageRoot, Committed;
    RemoveStage(v, stage);
    var after := Apply(RemoveAll(StageRoot(stage)), v);
    forall s: string
      ensures ManifestPath(s) !in after.disk
    {
      assert Lookup(after.disk, ManifestPath(s)) == None;
    }
  }

  lemma ListedAfter(a: Disk, b: Disk, stage: string, slots: seq<Slot>, names: seq<string>)
    requires AllPlaced(stage, slots) && SameElsewhere(a, b, slots) && stage in names
    ensures Listed(a, names) ==> Listed(b, names)
  {
    hide WellPlaced, PathsOf, StageRoot;
    forall p | Listed(a, names) && p in b && InWorkspace(p)
      ensures |p| > 1 && p[1] in names
    {
      if IsSpot(slots, p) {
        var i :| 0 <= i < |slots| && p in PathsOf(slots[i].item);
        PlacedPaths(stage, slots[i]);
        StageInWorkspace(stage, p);
      } else {
        assert Lookup(a, p) == Lookup(b, p);
      }
    }
  }

  lemma LandedThen(a: Disk, b: Disk, c: Disk, stage: string, slots: seq<Slot>)
    requires AllPlaced(stage, slots) && SameOutside(b, c)
    ensures SameButTargets(a, b, slots) ==> SameButTargets(a, c, slots)
    ensures RolledBack(a, b, slots) ==> Landed(a, c, slots)
    ensures Landed(a, b, slots) ==> Landed(a, c, slots)
  {
    hide WellPlaced, PathsOf, StageRoot, GoalOf, IsSpot;
    forall i | 0 <= i < |slots|
      ensures Lookup(b, slots[i].item.target) == Lookup(c, slots[i].item.target)
    {
      PlacedPaths(stage, slots[i]);
    }
  }

  // --- The whole recovery --------------------------------------------------------------

  /** Recovery up to any step: the stage is still pending, or it is undone and only directories are left to remove; at the end the workspace is empty. */
  lemma {:induction false} RecoverPrefix(w: World, stage: string, slots: seq<Slot>, token: string, names: seq<string>, k: nat)
    requires Pending(w, stage, slots, token) && k <= |RecoverOps(w, names)|
    ensures RecoverSound(w, names)
    ensures var ops := RecoverOps(w, names);
            var after := Run(ops[..k], w);
            && after.db == w.db && SameButTargets(w.disk, after.disk, slots)
            && (Pending(after, stage, slots, token) || (Sweepable(after) && Landed(w.disk, after.disk, slots)))
            && (k == |ops| && Listed(w.disk, names) ==>
                  Landed(w.disk, after.disk, slots) && forall p | p in after.disk :: !InWorkspace(p))
    decreases |names|
  {
    hide Apply, Run, RecoverStageOps, StageRoot, SameButTargets, Landed, Listed, Sweepable, SameOutside, ManifestPath, AllPlaced, Pending, InWorkspace;
    var ops := RecoverOps(w, names);
    SameButTargetsJoin(w.disk, w.disk, w.disk, slots);
    if names == [] {
      RunNone(w);
      assert ops[..k] == [];
      PendingListed(w, stage, slots, token);
    } else {
      var first := RecoverStageOps(w, names[0]);
      var w1 := Run(first, w);
      var others := RecoverOps(w1, names[1..]);
      RunSplit(first, others, w, k);
      assert first[..|first|] == first;
      if names[0] == stage {
        PendingStage(w, stage, slots, token, names, |first|);
        PendingLoads(w, stage, slots, token);
        Sweep(w1, names[1..], 0);
        if k < |first| {
          PendingStage(w, stage, slots, token, names, k);
        } else {
          Sweep(w1, names[1..], k - |first|);
          PlacedWhen(w, stage, slots, token);
          LandedThen(w.disk, w1.disk, Run(ops[..k], w).disk, stage, slots);
        }
      } else {
        PendingOther(w, stage, slots, token, names[0]);
        RunOne(RemoveAll(StageRoot(names[0])), w);
        RemoveStage(w, names[0]);
        RemoveStageKeeps(w, names[0], names);
        OutsideButTargets(w.disk, w1.disk, slots);
        RecoverPrefix(w1, stage, slots, token, names[1..], 0);
        if k == 0 {
          assert first[..0] == [];
          RunNone(w);
        } else {
          RecoverPrefix(w1, stage, slots, token, names[1..], k - 1);
          SameButTargetsJoin(w.disk, w1.disk, Run(ops[..k], w).disk, slots);
          SameGoals(w.disk, w1.disk, Run(ops[..k], w).disk, slots);
        }
      }
    }
  }

  lemma PendingLoads(w: World, stage: string, slots: seq<Slot>, token: string)
    requires Pending(w, stage, slots, token)
    ensures !LoadManifest(w.disk, stage).Invalid?
  {
  }

  lemma SameButTargetsJoin(a: Disk, b: Disk, c: Disk, slots: seq<Slot>)
    ensures SameButTargets(a, a, slots)
    ensures SameButTargets(a, b, slots) && SameButTargets(b, c, slots) ==> SameButTargets(a, c, slots)
  {
    hide IsSpot;
  }

  lemma OutsideButTargets(a: Disk, b: Disk, slots: seq<Slot>)
    requires SameOutside(a, b)
    ensures SameButTargets(a, b, slots)
  {
    hide IsSpot;
  }

  lemma SameGoals(a: Disk, b: Disk, c: Disk, slots: seq<Slot>)
    requires forall i | 0 <= i < |slots| :: GoalOf(a, slots[i]) == GoalOf(b, slots[i])
    ensures Landed(a, c, slots) <==> Landed(b, c, slots)
  {
    hide GoalOf;
  }

  lemma PendingListed(w: World, stage: string, slots: seq<Slot>, token: string)
    requires Pending(w, stage, slots, token)
    ensures !Listed(w.disk, [])
  {
    var p := ManifestPath(stage);
    assert p in w.disk && InWorkspace(p);
  }

  lemma PlacedWhen(w: World, stage: string, slots: seq<Slot>, token: string)
    requires Pending(w, stage, slots, token)
    ensures AllPlaced(stage, slots)
  {
  }
}
