/** What the recoveries at startup can touch on any disk whatsoever, whatever the manifests they find say. */
module RecoveryBounds {
  import opened Wrappers
  import opened Storage
  import opened Text
  import DeletionItems
  import Deletions = GameDeletions
  import Covers = GameCovers
  import ImportSwaps
  import Imports = ImportRecovery

  // --- Steps and what they are permitted to do -----------------------------------------

  /** Every step is permitted in the world in which it is taken. */
  predicate Permitted(ops: seq<Op>, w: World, permits: (Op, World) -> bool)
    decreases |ops|
  {
    ops == [] || (permits(ops[0], w) && Permitted(ops[1..], Apply(ops[0], w), permits))
  }

  lemma {:induction false} PermittedConcat(a: seq<Op>, b: seq<Op>, w: World, permits: (Op, World) -> bool)
    requires Permitted(a, w, permits) && Permitted(b, Run(a, w), permits)
    ensures Permitted(a + b, w, permits)
    decreases |a|
  {
    hide Apply;
    if a == [] {
      assert a + b == b;
    } else {
      assert (a + b)[1..] == a[1..] + b;
      PermittedConcat(a[1..], b, Apply(a[0], w), permits);
    }
  }

  lemma {:induction false} PermittedPrefix(ops: seq<Op>, w: World, permits: (Op, World) -> bool, k: nat)
    requires Permitted(ops, w, permits) && k <= |ops|
    ensures Permitted(ops[..k], w, permits)
    decreases k
  {
    hide Apply;
    if k > 0 {
      PermittedPrefix(ops[1..], Apply(ops[0], w), permits, k - 1);
      assert ops[..k][1..] == ops[1..][..k - 1];
    }
  }

  lemma PermittedNone(w: World, permits: (Op, World) -> bool)
    ensures Permitted([], w, permits)
  {
  }

  lemma PermittedOne(op: Op, w: World, permits: (Op, World) -> bool)
    requires permits(op, w)
    ensures Permitted([op], w, permits)
  {
    assert [op][1..] == [];
  }

  // --- Deletions -----------------------------------------------------------------------

  /** A step that brings something back from the trash to a free place, or removes from the trash. */
  predicate GivesBack(op: Op, w: World) {
    match op
    case Move(source, destination) =>
      && source != [] && source[0] == ".atri-trash" && destination !in w.disk
      && |destination| >= 2 && destination[0] in {"covers", "demos", "playables"} && Walk([], destination) == destination
    case RemoveAll(root) => root != [] && root[0] == ".atri-trash"
    case _ => false
  }

  /** A path outside the trash is as it was, or was free and lies in one of the three asset directories. */
  predicate GivenBack(w: World, v: World, p: Path) {
    Lookup(v.disk, p) == Lookup(w.disk, p)
    || (p !in w.disk && |p| >= 2 && p[0] in {"covers", "demos", "playables"} && Walk([], p) == p)
  }

  lemma GivenBackByStep(op: Op, w: World, p: Path)
    requires GivesBack(op, w) && (p == [] || p[0] != ".atri-trash")
    ensures GivenBack(w, Apply(op, w), p) && Apply(op, w).db == w.db
  {
    hide Walk;
  }

  lemma {:induction false} GivenBackByAll(ops: seq<Op>, w: World, p: Path)
    requires Permitted(ops, w, GivesBack) && (p == [] || p[0] != ".atri-trash")
    ensures GivenBack(w, Run(ops, w), p) && Run(ops, w).db == w.db
    decreases |ops|
  {
    hide Apply, GivesBack, Walk;
    if ops != [] {
      GivenBackByStep(ops[0], w, p);
      GivenBackByAll(ops[1..], Apply(ops[0], w), p);
    }
  }

  predicate Managed(stage: string, items: seq<StagedItem>) {
    forall i | 0 <= i < |items| :: Deletions.AssetPath(items[i].original) && Deletions.FilesRoot(stage) <= items[i].staged
  }

  lemma RestoreIsPermitted(w: World, stage: string, item: StagedItem)
    requires Deletions.AssetPath(item.original) && Deletions.FilesRoot(stage) <= item.staged
    ensures Permitted(DeletionItems.RestoreItemOps(w.disk, item), w, GivesBack)
  {
    hide Apply, Walk, SafeSegment;
    CleanExactly([], item.original);
    assert [] + item.original == item.original;
    assert item.staged[0] == Deletions.FilesRoot(stage)[0];
    var op := Move(item.staged, item.original);
    if item.original !in w.disk {
      PermittedOne(op, w, GivesBack);
    }
  }

  lemma {:induction false} RestoringIsPermitted(w: World, stage: string, items: seq<StagedItem>)
    requires Managed(stage, items)
    ensures Permitted(DeletionItems.RestoreOps(w, items), w, GivesBack)
    decreases |items|
  {
    hide Apply, GivesBack, DeletionItems.RestoreItemOps, Run, Deletions.AssetPath, Deletions.FilesRoot;
    if items == [] {
      PermittedNone(w, GivesBack);
    } else {
      var last := |items| - 1;
      var ops := DeletionItems.RestoreItemOps(w.disk, items[last]);
      RestoreIsPermitted(w, stage, items[last]);
      RestoringIsPermitted(Run(ops, w), stage, items[..last]);
      PermittedConcat(ops, DeletionItems.RestoreOps(Run(ops, w), items[..last]), w, GivesBack);
    }
  }

  lemma StageIsPermitted(w: World, name: string)
    ensures Permitted(Deletions.RecoverStageOps(w, name), w, GivesBack)
  {
    hide Apply, Run, DeletionItems.RestoreOps, DeletionItems.RestoreSound, Deletions.AssetPath, Deletions.FilesRoot, Walk;
    var drop := RemoveAll(Deletions.TrashRoot(name));
    var load := Deletions.LoadStage(w.disk, name);
    PermittedNone(w, GivesBack);
    PermittedOne(drop, w, GivesBack);
    if load.Loaded? {
      var undo := DeletionItems.RestoreOps(w, load.items);
      RestoringIsPermitted(w, name, load.items);
      PermittedOne(drop, Run(undo, w), GivesBack);
      PermittedConcat(undo, [drop], w, GivesBack);
      assert undo + [] == undo;
    }
  }

  lemma {:induction false} DeletionsArePermitted(w: World, names: seq<string>)
    ensures Permitted(Deletions.RecoverOps(w, names), w, GivesBack)
    decreases |names|
  {
    hide Apply, GivesBack, Run, Deletions.RecoverStageOps;
    if names == [] {
      PermittedNone(w, GivesBack);
    } else {
      var ops := Deletions.RecoverStageOps(w, names[0]);
      StageIsPermitted(w, names[0]);
      DeletionsArePermitted(Run(ops, w), names[1..]);
      PermittedConcat(ops, Deletions.RecoverOps(Run(ops, w), names[1..]), w, GivesBack);
    }
  }

  /** On any disk, resolving deletions changes no row and, up to any step, nothing outside the trash that is there; all it adds comes to free places in the directories for covers, demos and playables. */
  lemma DeletionRecoveryOnlyGivesBack(w: World, names: seq<string>, k: nat, p: Path)
    requires k <= |Deletions.RecoverOps(w, names)| && (p == [] || p[0] != ".atri-trash")
    ensures var v := Run(Deletions.RecoverOps(w, names)[..k], w);
            && v.db == w.db
            && (Lookup(v.disk, p) == Lookup(w.disk, p)
                || (p !in w.disk && |p| >= 2 && p[0] in {"covers", "demos", "playables"} && Walk([], p) == p))
  {
    hide Apply, Walk, GivesBack, Run;
    var ops := Deletions.RecoverOps(w, names);
    DeletionsArePermitted(w, names);
    PermittedPrefix(ops, w, GivesBack, k);
    GivenBackByAll(ops[..k], w, p);
  }

  // --- Covers --------------------------------------------------------------------------

  /** A cover file whose content has the digest that is in its name. */
  predicate OwnDigest(disk: Disk, p: Path) {
    && |p| == 3 && p[0] == "covers" && |p[2]| > 70 && p[2][..6] == "cover-" && p[2][70..] in {".avif", ".jpg", ".png", ".webp"}
    && Lookup(disk, p) == Some(File(p[2][6..70]))
  }

  /** A step that deletes such a file, removes from the upload workspace, or drops a receipt. */
  predicate Discards(op: Op, w: World) {
    match op
    case Delete(file) => OwnDigest(w.disk, file)
    case RemoveAll(root) => root != [] && root[0] == ".atri-cover-uploads"
    case DropReceipt(_) => true
    case _ => false
  }

  predicate SameRows(a: Database, b: Database) {
    b.games == a.games && b.packages == a.packages && b.covers == a.covers && b.receipts.Keys <= a.receipts.Keys
  }

  predicate Discarded(w: World, v: World, p: Path) {
    Lookup(v.disk, p) == Lookup(w.disk, p) || (p !in v.disk && OwnDigest(w.disk, p))
  }

  lemma DiscardedByStep(op: Op, w: World, p: Path)
    requires Discards(op, w) && (p == [] || p[0] != ".atri-cover-uploads")
    ensures Discarded(w, Apply(op, w), p) && SameRows(w.db, Apply(op, w).db)
  {
    assert OwnDigest(w.disk, p) ==> p in w.disk;
  }

  lemma DiscardedThen(w: World, u: World, v: World, p: Path)
    requires Discarded(w, u, p) && Discarded(u, v, p)
    ensures Discarded(w, v, p)
  {
  }

  lemma {:induction false} DiscardedByAll(ops: seq<Op>, w: World, p: Path)
    requires Permitted(ops, w, Discards) && (p == [] || p[0] != ".atri-cover-uploads")
    ensures Discarded(w, Run(ops, w), p) && SameRows(w.db, Run(ops, w).db)
    decreases |ops|
  {
    hide Apply, Discards, Discarded;
    if ops == [] {
      NothingDiscarded(w, p);
    } else {
      var u := Apply(ops[0], w);
      DiscardedByStep(ops[0], w, p);
      DiscardedByAll(ops[1..], u, p);
      DiscardedThen(w, u, Run(ops[1..], u), p);
    }
  }

  lemma NothingDiscarded(w: World, p: Path)
    ensures Discarded(w, w, p)
  {
  }

  lemma DeletingIsPermitted(w: World, p: Path)
    ensures Permitted(Covers.Deleting(w.disk, p).ops, w, Discards)
  {
    hide Apply, SafeBundleName, Covers.HexDigit;
    PermittedNone(w, Discards);
    if Covers.Verified(w.disk, p) {
      assert OwnDigest(w.disk, p);
      PermittedOne(Delete(p), w, Discards);
    }
  }

  lemma FinalizingIsPermitted(w: World, st: Covers.Stage)
    ensures Permitted(Covers.FinalizePlan(w, st).ops, w, Discards)
  {
    hide Apply, Covers.Deleting, Covers.Verified, Covers.Referenced;
    var first := Covers.TargetPlan(w, st);
    var u := Run(first.ops, w);
    var second := Covers.ReplacedPlan(u, st);
    var v := Run(second.ops, u);
    var root, receipt := RemoveAll(Covers.StageRoot(st.name)), DropReceipt(st.token);
    DeletingIsPermitted(w, st.target);
    if st.replaced.Some? {
      DeletingIsPermitted(u, st.replaced.value);
    }
    PermittedNone(w, Discards);
    PermittedNone(u, Discards);
    PermittedOne(receipt, Apply(root, v), Discards);
    assert [root, receipt][1..] == [receipt];
    assert Permitted([root, receipt], v, Discards);
    PermittedConcat(second.ops, [root, receipt], u, Discards);
    PermittedConcat(first.ops, second.ops + [root, receipt], w, Discards);
    PermittedConcat(first.ops, second.ops, w, Discards);
    assert first.ops + (second.ops + [root, receipt]) == first.ops + second.ops + [root, receipt];
  }

  lemma RollbackIsPermitted(w: World, st: Covers.Stage)
    ensures Permitted(Covers.RollbackPlan(w, st).ops, w, Discards)
  {
    hide Apply, Covers.Deleting;
    var first := if st.created then Covers.Deleting(w.disk, st.target) else Covers.Plan([], true);
    var root := RemoveAll(Covers.StageRoot(st.name));
    DeletingIsPermitted(w, st.target);
    PermittedNone(w, Discards);
    PermittedOne(root, Run(first.ops, w), Discards);
    PermittedConcat(first.ops, [root], w, Discards);
  }

  lemma CoverStageIsPermitted(w: World, name: string)
    ensures Permitted(Covers.RecoverStagePlan(w, name).ops, w, Discards)
  {
    hide Apply, Covers.FinalizePlan, Covers.RollbackPlan, Covers.LoadStage;
    var load := Covers.LoadStage(w.disk, name);
    PermittedNone(w, Discards);
    PermittedOne(RemoveAll(Covers.StageRoot(name)), w, Discards);
    if load.Loaded? {
      FinalizingIsPermitted(w, load.stage);
      RollbackIsPermitted(w, load.stage);
    }
  }

  lemma {:induction false} CoversArePermitted(w: World, names: seq<string>)
    ensures Permitted(Covers.RecoverOps(w, names), w, Discards)
    decreases |names|
  {
    hide Apply, Discards, Run, Covers.RecoverStagePlan;
    if names == [] {
      PermittedNone(w, Discards);
    } else {
      var ops := Covers.RecoverStagePlan(w, names[0]).ops;
      CoverStageIsPermitted(w, names[0]);
      CoversArePermitted(Run(ops, w), names[1..]);
      PermittedConcat(ops, Covers.RecoverOps(Run(ops, w), names[1..]), w, Discards);
    }
  }

  /** On any disk, resolving cover uploads changes no row but receipts, which it only drops, and, up to any step, nothing outside the upload workspace but cover files, which it only deletes, and only if their content is what their name says. */
  lemma CoverRecoveryOnlyDiscards(w: World, names: seq<string>, k: nat, p: Path)
    requires k <= |Covers.RecoverOps(w, names)| && (p == [] || p[0] != ".atri-cover-uploads")
    ensures var v := Run(Covers.RecoverOps(w, names)[..k], w);
            SameRows(w.db, v.db) && (Lookup(v.disk, p) == Lookup(w.disk, p) || (p !in v.disk && OwnDigest(w.disk, p)))
  {
    hide Apply, Discards, Run, OwnDigest;
    var ops := Covers.RecoverOps(w, names);
    CoversArePermitted(w, names);
    PermittedPrefix(ops, w, Discards, k);
    DiscardedByAll(ops[..k], w, p);
  }

  // --- Imports -------------------------------------------------------------------------

  predicate AtOrBelowOne(targets: seq<Path>, p: Path) {
    exists i | 0 <= i < |targets| :: targets[i] <= p
  }

  /** A step that clears a target or something in the stage, or moves from the stage to a target. */
  predicate Reverts(stage: string, targets: seq<Path>, op: Op) {
    match op
    case Move(source, destination) => [".atri-imports", stage] <= source && destination in targets
    case RemoveAll(root) => [".atri-imports", stage] <= root || root in targets
    case _ => false
  }

  function Reverting(stage: string, targets: seq<Path>): (Op, World) -> bool {
    (op, w) => Reverts(stage, targets, op)
  }

  lemma KeptByStep(stage: string, targets: seq<Path>, op: Op, w: World, p: Path)
    requires Reverts(stage, targets, op) && !([".atri-imports", stage] <= p)
    ensures Lookup(Apply(op, w).disk, p) == Lookup(w.disk, p) || AtOrBelowOne(targets, p)
    ensures Apply(op, w).db == w.db
  {
    forall root: Path | root <= p && ([".atri-imports", stage] <= root || root in targets)
      ensures AtOrBelowOne(targets, p)
    {
      StaysBelow([".atri-imports", stage], root, p);
    }
  }

  lemma StaysBelow(a: Path, b: Path, c: Path)
    ensures a <= b && b <= c ==> a <= c
  {
  }

  lemma {:induction false} KeptByAll(stage: string, targets: seq<Path>, ops: seq<Op>, w: World, p: Path)
    requires Permitted(ops, w, Reverting(stage, targets)) && !([".atri-imports", stage] <= p)
    ensures Lookup(Run(ops, w).disk, p) == Lookup(w.disk, p) || AtOrBelowOne(targets, p)
    ensures Run(ops, w).db == w.db
    decreases |ops|
  {
    hide Apply, Reverts, AtOrBelowOne;
    if ops != [] {
      KeptByStep(stage, targets, ops[0], w, p);
      KeptByAll(stage, targets, ops[1..], Apply(ops[0], w), p);
    }
  }

  function Targets(items: seq<SwapItem>): (targets: seq<Path>)
    ensures |targets| == |items|
  {
    seq(|items|, i requires 0 <= i < |items| => items[i].target)
  }

  /** The swaps concern items of the stage with targets among those given. */
  predicate Bounded(stage: string, targets: seq<Path>, swaps: seq<ImportSwaps.Swap>) {
    forall i | 0 <= i < |swaps| :: swaps[i].item.target in targets && Imports.ValidItem(stage, swaps[i].item)
  }

  lemma UndoIsPermitted(w: World, stage: string, targets: seq<Path>, swap: ImportSwaps.Swap)
    requires swap.item.target in targets && Imports.ValidItem(stage, swap.item)
    ensures Permitted(ImportSwaps.RollbackItemOps(w, swap), w, Reverting(stage, targets))
  {
    hide Apply, Clean, Run;
    var permits := Reverting(stage, targets);
    var item := swap.item;
    var first := ImportSwaps.ClearOps(w, Some(item.target));
    var u := Run(first, w);
    var second := ImportSwaps.ClearOps(u, item.incoming);
    var v := Run(second, u);
    var third := if item.backup in v.disk then [Move(item.backup, item.target)] else [];
    PermittedNone(w, permits);
    PermittedNone(u, permits);
    PermittedNone(v, permits);
    PermittedOne(RemoveAll(item.target), w, permits);
    if item.incoming.Some? {
      PermittedOne(RemoveAll(item.incoming.value), u, permits);
    }
    PermittedOne(Move(item.backup, item.target), v, permits);
    PermittedConcat(second, third, u, permits);
    PermittedConcat(first, second + third, w, permits);
    assert first + (second + third) == first + second + third;
  }

  lemma {:induction false} UndoingIsPermitted(w: World, stage: string, targets: seq<Path>, swaps: seq<ImportSwaps.Swap>)
    requires Bounded(stage, targets, swaps)
    ensures Permitted(ImportSwaps.RollbackOps(w, swaps), w, Reverting(stage, targets))
    decreases |swaps|
  {
    hide Apply, Reverting, Run, ImportSwaps.RollbackItemOps, Imports.ValidItem;
    var permits := Reverting(stage, targets);
    if swaps == [] {
      PermittedNone(w, permits);
    } else {
      var last := |swaps| - 1;
      var ops := ImportSwaps.RollbackItemOps(w, swaps[last]);
      UndoIsPermitted(w, stage, targets, swaps[last]);
      UndoingIsPermitted(Run(ops, w), stage, targets, swaps[..last]);
      PermittedConcat(ops, ImportSwaps.RollbackOps(Run(ops, w), swaps[..last]), w, permits);
    }
  }

  lemma {:induction false} InferredIs(disk: Disk, items: seq<SwapItem>)
    ensures forall i | 0 <= i < |items| :: ImportSwaps.InferAll(disk, items)[i].item == items[i]
  {
    if items != [] {
      InferredIs(disk, items[1..]);
    }
  }

  /** The uncommitted manifest of a stage names a target at or above a path, and that target leads straight down from the asset root. */
  predicate UndoneTarget(w: World, stage: string, p: Path) {
    match Lookup(w.disk, [".atri-imports", stage, "install.json"])
    case Some(ImportManifest(token, _, swaps)) =>
      token !in w.db.packages.Values && exists i | 0 <= i < |swaps| :: swaps[i].target <= p && Walk([], swaps[i].target) == swaps[i].target
    case _ => false
  }

  lemma InferredBounded(w: World, stage: string, token: string, items: seq<SwapItem>)
    requires Imports.LoadManifest(w.disk, stage) == Imports.Loaded(token, items)
    ensures Bounded(stage, Targets(items), ImportSwaps.InferAll(w.disk, items))
  {
    hide ImportSwaps.InferAll, Clean, SafeBundleName, Trim, Imports.ValidItem;
    InferredIs(w.disk, items);
    forall i | 0 <= i < |items|
      ensures items[i].target in Targets(items)
    {
      assert Targets(items)[i] == items[i].target;
    }
  }

  lemma TargetIsNamed(w: World, stage: string, token: string, items: seq<SwapItem>, p: Path)
    requires Imports.LoadManifest(w.disk, stage) == Imports.Loaded(token, items) && token !in w.db.packages.Values
    requires AtOrBelowOne(Targets(items), p)
    ensures UndoneTarget(w, stage, p)
  {
    hide Walk, Clean, SafeBundleName, Trim;
    var i :| 0 <= i < |Targets(items)| && Targets(items)[i] <= p;
    assert Imports.ValidItem(stage, items[i]);
    CleanExactly([], items[i].target);
    StayingPut();
    assert [] + items[i].target == items[i].target;
    assert Imports.ManifestPath(stage) == [".atri-imports", stage, "install.json"];
    assert items[i].target <= p;
  }

  lemma StayingPut()
    ensures Walk([], []) == []
  {
  }

  lemma UndoingStageIsPermitted(w: World, stage: string, token: string, items: seq<SwapItem>)
    requires Imports.LoadManifest(w.disk, stage) == Imports.Loaded(token, items) && token !in w.db.packages.Values
    ensures Permitted(Imports.RecoverStageOps(w, stage), w, Reverting(stage, Targets(items)))
  {
    hide Apply, Run, ImportSwaps.RollbackOps, ImportSwaps.InferAll, Imports.LoadManifest, Bounded;
    var permits := Reverting(stage, Targets(items));
    var undo := ImportSwaps.RollbackOps(w, ImportSwaps.InferAll(w.disk, items));
    var drop := RemoveAll(ImportSwaps.StageRoot(stage));
    InferredBounded(w, stage, token, items);
    UndoingIsPermitted(w, stage, Targets(items), ImportSwaps.InferAll(w.disk, items));
    PermittedOne(drop, Run(undo, w), permits);
    PermittedConcat(undo, [drop], w, permits);
  }

  lemma DroppingStageIsPermitted(w: World, stage: string)
    requires var load := Imports.LoadManifest(w.disk, stage); load.Loaded? ==> load.token in w.db.packages.Values
    ensures Permitted(Imports.RecoverStageOps(w, stage), w, Reverting(stage, []))
  {
    hide Apply, Imports.LoadManifest;
    PermittedNone(w, Reverting(stage, []));
    PermittedOne(RemoveAll(ImportSwaps.StageRoot(stage)), w, Reverting(stage, []));
  }

  /** On any disk, resolving one directory of the import workspace changes no row and, up to any step, nothing outside that directory but what lies at or below the targets of its uncommitted manifest. */
  lemma ImportRecoveryOnlyReverts(w: World, stage: string, k: nat, p: Path)
    requires k <= |Imports.RecoverStageOps(w, stage)| && !([".atri-imports", stage] <= p)
    ensures var v := Run(Imports.RecoverStageOps(w, stage)[..k], w);
            && (Lookup(v.disk, p) == Lookup(w.disk, p) || UndoneTarget(w, stage, p))
            && v.db == w.db
  {
    hide Apply, Run, Imports.LoadManifest, Imports.RecoverStageOps, UndoneTarget, AtOrBelowOne;
    var ops := Imports.RecoverStageOps(w, stage);
    var load := Imports.LoadManifest(w.disk, stage);
    var undone := load.Loaded? && load.token !in w.db.packages.Values;
    var targets := if undone then Targets(load.items) else [];
    if undone {
      UndoingStageIsPermitted(w, stage, load.token, load.items);
    } else {
      DroppingStageIsPermitted(w, stage);
    }
    PermittedPrefix(ops, w, Reverting(stage, targets), k);
    KeptByAll(stage, targets, ops[..k], w, p);
    if AtOrBelowOne(targets, p) {
      SomeTarget(targets, p);
      TargetIsNamed(w, stage, load.token, load.items, p);
    }
  }

  lemma SomeTarget(targets: seq<Path>, p: Path)
    ensures AtOrBelowOne(targets, p) ==> targets != []
  {
  }
}
