/** The deletion as the server runs it: a stage object, the deletion itself and startup recovery. */
module DeletionStages {
  import opened Wrappers
  import opened Storage
  import opened DeletionItems
  import opened GameDeletions

  lemma RestoreUnfolds(w: World, items: seq<StagedItem>, n: nat)
    requires 0 < n <= |items|
    ensures var first := RestoreItemOps(w.disk, items[n - 1]);
            RestoreOps(w, items[..n]) == first + RestoreOps(Run(first, w), items[..n - 1])
    ensures var first := RestoreItemOps(w.disk, items[n - 1]);
            RestoreSound(w, items[..n]) == (Exact(PairOf(w.disk, items[n - 1])) && RestoreSound(Run(first, w), items[..n - 1]))
  {
    hide RestoreItemOps, Run, PairOf, Exact;
    assert items[..n][..n - 1] == items[..n - 1];
  }

  lemma NothingToRestore(w: World, items: seq<StagedItem>)
    ensures RestoreOps(w, items[..0]) == [] && RestoreSound(w, items[..0])
    ensures items[..|items|] == items
  {
  }

  /** Brings one asset back if it is in the trash only; reports whether it was at exactly one place. */
  method RestoreAsset(machine: Machine, item: StagedItem) returns (ok: bool, sound: bool)
    modifies machine
    ensures Ran(RestoreItemOps(old(machine.world.disk), item), old(machine.world), old(machine.fuse), machine.world, machine.fuse, ok)
    ensures sound == Exact(PairOf(old(machine.world.disk), item))
  {
    hide Ran;
    var original := item.original in machine.world.disk;
    var staged := item.staged in machine.world.disk;
    sound := original != staged;
    ok := DoIf(machine, !original && staged, Move(item.staged, item.original));
  }

  class AssetStage {
    const machine: Machine
    const stage: string
    const items: seq<StagedItem>

    constructor (machine: Machine, stage: string, items: seq<StagedItem>)
      ensures this.machine == machine && this.stage == stage && this.items == items
    {
      this.machine := machine;
      this.stage := stage;
      this.items := items;
    }

    /** Brings the assets back, from the last to the first; the stage is dropped only if each was at exactly one place. */
    method Rollback() returns (clean: bool)
      modifies machine
      ensures exists ok: bool ::
        && Ran(RollbackOps(old(machine.world), stage, items), old(machine.world), old(machine.fuse), machine.world, machine.fuse, ok)
        && clean == (ok && RestoreSound(old(machine.world), items))
    {
      hide *;
      ghost var w, fuse := machine.world, machine.fuse;
      ghost var all := RestoreOps(w, items);
      ghost var done: seq<Op> := [];
      var n := |items|;
      var ok, sound := true, true;
      SoFarStarts(all, w, fuse);
      NothingToRestore(w, items);
      while n > 0
        invariant 0 <= n <= |items|
        invariant SoFar(all, done, RestoreOps(machine.world, items[..n]), w, fuse, machine.world, machine.fuse, ok)
        invariant ok ==> RestoreSound(w, items) == (sound && RestoreSound(machine.world, items[..n]))
      {
        ghost var v, left := machine.world, machine.fuse;
        n := n - 1;
        RestoreUnfolds(v, items, n + 1);
        var one, exact := RestoreAsset(machine, items[n]);
        ghost var first := RestoreItemOps(v.disk, items[n]);
        SoFarAdvances(all, done, first, RestoreOps(Run(first, v), items[..n]), first, w, fuse, v, left, ok, machine.world, machine.fuse, one);
        done := done + first;
        ok, sound := ok && one, sound && exact;
        if !ok {
          AheadIsFree(all, done, RestoreOps(Run(first, v), items[..n]), RestoreOps(machine.world, items[..n]), w, fuse, machine.world, machine.fuse);
        }
      }
      NothingToRestore(machine.world, items);
      SoFarEnds(all, done, w, fuse, machine.world, machine.fuse, ok);
      ghost var v, left := machine.world, machine.fuse;
      ghost var last := if RestoreSound(w, items) then [RemoveAll(TrashRoot(stage))] else [];
      RollbackIs(w, stage, items);
      if ok && sound {
        ok := Finalize();
        RanThen(all, last, last, w, fuse, v, left, true, machine.world, machine.fuse, ok);
      } else {
        RanNone(v, left);
        RanThen(all, last, [], w, fuse, v, left, ok, v, left, true);
      }
      clean := ok && sound;
    }

    /** Drops the stage. */
    method Finalize() returns (ok: bool)
      modifies machine
      ensures Ran([RemoveAll(TrashRoot(stage))], old(machine.world), old(machine.fuse), machine.world, machine.fuse, ok)
    {
      ok := DoIf(machine, true, RemoveAll(TrashRoot(stage)));
    }
  }

  lemma RollbackIs(w: World, stage: string, items: seq<StagedItem>)
    ensures RollbackOps(w, stage, items) == RestoreOps(w, items) + if RestoreSound(w, items) then [RemoveAll(TrashRoot(stage))] else []
  {
  }

  // --- Startup recovery ----------------------------------------------------------------

  /** Resolves one directory of the trash; reports whether that raised no error. */
  method RecoverStage(machine: Machine, name: string) returns (clean: bool)
    modifies machine
    ensures exists ok: bool ::
      && Ran(RecoverStageOps(old(machine.world), name), old(machine.world), old(machine.fuse), machine.world, machine.fuse, ok)
      && clean == (ok && RecoverStageSound(old(machine.world), name))
  {
    hide Ran, TrashRoot, ManifestPath, RollbackOps, LoadStage;
    ghost var w, fuse := machine.world, machine.fuse;
    var load := LoadStage(machine.world.disk, name);
    match load {
      case Unreadable =>
        RanNone(machine.world, machine.fuse);
        assert Ran(RecoverStageOps(w, name), w, fuse, machine.world, machine.fuse, true);
        clean := false;
      case Loaded(game, items) =>
        var stage := new AssetStage(machine, name, items);
        if game in machine.world.db.games {
          clean := stage.Rollback();
          ghost var ok :| Ran(RollbackOps(w, name, items), w, fuse, machine.world, machine.fuse, ok) && clean == (ok && RestoreSound(w, items));
          assert Ran(RecoverStageOps(w, name), w, fuse, machine.world, machine.fuse, ok);
        } else {
          clean := stage.Finalize();
          assert Ran(RecoverStageOps(w, name), w, fuse, machine.world, machine.fuse, clean);
        }
    }
  }

  /** Resolves every directory of the trash and goes on after one that cannot be resolved. */
  method RecoverManagedAssets(machine: Machine, names: seq<string>) returns (clean: bool)
    modifies machine
    ensures exists ok: bool ::
      && Ran(RecoverOps(old(machine.world), names), old(machine.world), old(machine.fuse), machine.world, machine.fuse, ok)
      && clean == (ok && RecoverSound(old(machine.world), names))
  {
    hide *;
    ghost var w, fuse := machine.world, machine.fuse;
    ghost var all := RecoverOps(w, names);
    ghost var done: seq<Op> := [];
    ghost var ok := true;
    var i := 0;
    clean := true;
    SoFarStarts(all, w, fuse);
    assert names[0..] == names;
    while i < |names|
      invariant 0 <= i <= |names|
      invariant SoFar(all, done, RecoverOps(machine.world, names[i..]), w, fuse, machine.world, machine.fuse, ok)
      invariant clean ==> ok
      invariant ok ==> RecoverSound(w, names) == (clean && RecoverSound(machine.world, names[i..]))
    {
      ghost var v, left := machine.world, machine.fuse;
      ghost var first := RecoverStageOps(v, names[i]);
      RecoverUnfolds(v, names, i);
      var one := RecoverStage(machine, names[i]);
      ghost var taken :| Ran(first, v, left, machine.world, machine.fuse, taken) && one == (taken && RecoverStageSound(v, names[i]));
      SoFarAdvances(all, done, first, RecoverOps(Run(first, v), names[i + 1..]), first, w, fuse, v, left, ok, machine.world, machine.fuse, taken);
      done := done + first;
      ok := ok && taken;
      clean := clean && one;
      i := i + 1;
      if !ok {
        AheadIsFree(all, done, RecoverOps(Run(first, v), names[i..]), RecoverOps(machine.world, names[i..]), w, fuse, machine.world, machine.fuse);
      }
    }
    NothingToRecover(machine.world, names);
    SoFarEnds(all, done, w, fuse, machine.world, machine.fuse, ok);
  }

  lemma RecoverUnfolds(w: World, names: seq<string>, i: nat)
    requires i < |names|
    ensures var first := RecoverStageOps(w, names[i]);
            && RecoverOps(w, names[i..]) == first + RecoverOps(Run(first, w), names[i + 1..])
            && RecoverSound(w, names[i..]) == (RecoverStageSound(w, names[i]) && RecoverSound(Run(first, w), names[i + 1..]))
  {
    hide RecoverStageOps, RecoverStageSound, Run;
    assert names[i..][1..] == names[i + 1..];
  }

  lemma NothingToRecover(w: World, names: seq<string>)
    ensures RecoverOps(w, names[|names|..]) == [] && RecoverSound(w, names[|names|..])
  {
  }

  // --- The deletion --------------------------------------------------------------------

  datatype DeletionError = RecoveryFailed | NotFound | InvalidRecord | WrongKind | Broken

  lemma ExistingUnfolds(disk: Disk, assets: seq<Path>, i: nat)
    requires i < |assets|
    ensures Existing(disk, assets[i..]) == (if assets[i] in disk then [assets[i]] else []) + Existing(disk, assets[i + 1..])
  {
    assert assets[i..][1..] == assets[i + 1..];
  }

  lemma NothingExists(disk: Disk, assets: seq<Path>)
    ensures Existing(disk, assets[|assets|..]) == []
    ensures assets[0..] == assets
  {
  }

  /** Looks which assets are on disk, and refuses one that is a file where it should be a directory, or the other way round. */
  method FindAssets(machine: Machine, del: Deletion) returns (found: Option<seq<Path>>)
    ensures found.Some? <==> KindsMatch(machine.world.disk, del)
    ensures found.Some? ==> found.value == Existing(machine.world.disk, del.assets)
  {
    hide Existing, RightKind;
    ghost var disk := machine.world.disk;
    var assets := del.assets;
    var paths: seq<Path> := [];
    var i := 0;
    NothingExists(disk, assets);
    while i < |assets|
      invariant 0 <= i <= |assets|
      invariant Existing(disk, assets) == paths + Existing(disk, assets[i..])
      invariant forall k | 0 <= k < i :: RightKind(disk, del, assets[k])
    {
      ExistingUnfolds(disk, assets, i);
      if !RightKind(machine.world.disk, del, assets[i]) {
        return None;
      }
      if assets[i] in machine.world.disk {
        paths := paths + [assets[i]];
      }
      i := i + 1;
    }
    found := Some(paths);
  }

  /** What the deletion leaves: if a step before the commit fails, the deletion undoes itself with the steps that are possible again. */
  function DeletionRun(w: World, del: Deletion, fuse: int, again: int): World {
    var ops := DeletionOps(w, del);
    var items := ItemsOf(w.disk, del);
    var v := Executed(ops, w, fuse);
    if del.game !in w.db.games || !KindsMatch(w.disk, del) then w
    else if Done(ops, fuse) || items == [] || fuse == 0 then v
    else if fuse < 3 then Executed([RemoveAll(TrashRoot(del.stage))], v, again)
    else if fuse <= 3 + |items| then Executed(RollbackOps(v, del.stage, items), v, again)
    else v
  }

  lemma DeletionShape(w: World, del: Deletion)
    ensures var items := ItemsOf(w.disk, del);
            && |SealOps(del, items)| == 3 && |StageOps(items)| == |items| && |CommitOps(del)| == 2
            && DeletionOps(w, del) == if !KindsMatch(w.disk, del) then [] else if items == [] then [DeleteRow(del.game)] else SealOps(del, items) + (StageOps(items) + CommitOps(del))
  {
  }

  /** The stage could not be sealed. */
  lemma SealFails(w: World, del: Deletion, fuse: int, again: int, v: World, left: int)
    requires del.game in w.db.games && KindsMatch(w.disk, del) && ItemsOf(w.disk, del) != []
    requires Ran(SealOps(del, ItemsOf(w.disk, del)), w, fuse, v, left, false)
    ensures 0 <= fuse < 3
    ensures DeletionRun(w, del, fuse, again) == if fuse == 0 then v else Executed([RemoveAll(TrashRoot(del.stage))], v, again)
  {
    hide Executed, ItemsOf, SealOps, TrashRoot, CommitOps, DeletionOps, RollbackOps;
    var items := ItemsOf(w.disk, del);
    DeletionShape(w, del);
    RanTo(SealOps(del, items), w, fuse, v, left, false);
    RanStops(SealOps(del, items), StageOps(items) + CommitOps(del), w, fuse, v, left);
    RanTo(DeletionOps(w, del), w, fuse, v, left, false);
  }

  /** An asset could not be moved, or the row could not be deleted. */
  lemma StagingFails(w: World, del: Deletion, fuse: int, again: int, v: World, left: int, u: World, left': int, ok: bool)
    requires del.game in w.db.games && KindsMatch(w.disk, del) && ItemsOf(w.disk, del) != []
    requires Ran(SealOps(del, ItemsOf(w.disk, del)), w, fuse, v, left, true)
    requires Ran(StageOps(ItemsOf(w.disk, del)), v, left, u, left', ok) && (ok ==> left' == 0)
    ensures DeletionRun(w, del, fuse, again) == Executed(RollbackOps(u, del.stage, ItemsOf(w.disk, del)), u, again)
  {
    hide Executed, ItemsOf, SealOps, TrashRoot, CommitOps, DeletionOps, RollbackOps, StageOps, Ran;
    var items := ItemsOf(w.disk, del);
    DeletionShape(w, del);
    RanTo(SealOps(del, items), w, fuse, v, left, true);
    RanTo(StageOps(items), v, left, u, left', ok);
    RanThen(SealOps(del, items), StageOps(items), StageOps(items), w, fuse, v, left, true, u, left', ok);
    if ok {
      RanNoPower(CommitOps(del), u);
      RanThen(SealOps(del, items) + StageOps(items), CommitOps(del), CommitOps(del), w, fuse, u, left', true, u, 0, false);
    } else {
      RanStops(SealOps(del, items) + StageOps(items), CommitOps(del), w, fuse, u, left');
    }
    assert SealOps(del, items) + StageOps(items) + CommitOps(del) == DeletionOps(w, del);
    RanTo(DeletionOps(w, del), w, fuse, u, if ok then 0 else left', false);
  }

  /** The row is deleted. */
  lemma DeletionHolds(w: World, del: Deletion, fuse: int, again: int, v: World, left: int, u: World, left': int, x: World, left'': int, ok: bool)
    requires del.game in w.db.games && KindsMatch(w.disk, del) && ItemsOf(w.disk, del) != []
    requires Ran(SealOps(del, ItemsOf(w.disk, del)), w, fuse, v, left, true)
    requires Ran(StageOps(ItemsOf(w.disk, del)), v, left, u, left', true) && left' != 0
    requires Ran(CommitOps(del), u, left', x, left'', ok)
    ensures DeletionRun(w, del, fuse, again) == x
  {
    hide Executed, ItemsOf, SealOps, TrashRoot, CommitOps, DeletionOps, RollbackOps, StageOps, Ran;
    var items := ItemsOf(w.disk, del);
    DeletionShape(w, del);
    RanTo(SealOps(del, items), w, fuse, v, left, true);
    RanTo(StageOps(items), v, left, u, left', true);
    RanThen(SealOps(del, items), StageOps(items), StageOps(items), w, fuse, v, left, true, u, left', true);
    RanThen(SealOps(del, items) + StageOps(items), CommitOps(del), CommitOps(del), w, fuse, u, left', true, x, left'', ok);
    assert SealOps(del, items) + StageOps(items) + CommitOps(del) == DeletionOps(w, del);
    RanTo(DeletionOps(w, del), w, fuse, x, left'', ok);
  }

  lemma NothingStaged(w: World, del: Deletion, fuse: int, again: int, x: World, left: int, ok: bool)
    requires del.game in w.db.games && KindsMatch(w.disk, del) && ItemsOf(w.disk, del) == []
    requires Ran([DeleteRow(del.game)], w, fuse, x, left, ok)
    ensures DeletionRun(w, del, fuse, again) == x
  {
    hide Executed;
  }

  lemma CommitThenDrop(del: Deletion, u: World, left: int, c: World, left': int, x: World, left'': int, ok: bool)
    requires Ran([DeleteRow(del.game)], u, left, c, left', true)
    requires Ran([RemoveAll(TrashRoot(del.stage))], c, left', x, left'', ok)
    ensures left != 0 && Ran(CommitOps(del), u, left, x, left'', ok)
  {
    RanThen([DeleteRow(del.game)], [RemoveAll(TrashRoot(del.stage))], [RemoveAll(TrashRoot(del.stage))], u, left, c, left', true, x, left'', ok);
    assert [DeleteRow(del.game)] + [RemoveAll(TrashRoot(del.stage))] == CommitOps(del);
  }

  lemma CommitRefused(del: Deletion, u: World, left: int, c: World, left': int)
    requires Ran([DeleteRow(del.game)], u, left, c, left', false)
    ensures left == 0 && left' == 0 && c == u
  {
    RanOne(DeleteRow(del.game), u, left);
  }

  lemma NoSuchGame(w: World, del: Deletion, fuse: int, again: int)
    ensures del.game !in w.db.games || !KindsMatch(w.disk, del) ==> DeletionRun(w, del, fuse, again) == w
  {
    hide Executed, RollbackOps;
  }

  lemma ItemsAre(w: World, del: Deletion, found: seq<Path>)
    requires found == Existing(w.disk, del.assets)
    ensures Items(del.stage, found) == ItemsOf(w.disk, del) && |ItemsOf(w.disk, del)| == |found|
  {
  }

  /** Removes a game whose assets are on disk: they go to the trash, then the row goes, then the trash. */
  method StageAndDelete(machine: Machine, del: Deletion, again: int) returns (r: Result<(), DeletionError>)
    modifies machine
    ensures machine.world == DeletionRun(old(machine.world), del, old(machine.fuse), again)
    ensures r == Failure(NotFound) <==> del.game !in old(machine.world.db.games)
    ensures r == Failure(WrongKind) <==> del.game in old(machine.world.db.games) && !KindsMatch(old(machine.world.disk), del)
    ensures r != Failure(RecoveryFailed) && r != Failure(InvalidRecord)
  {
    hide *;
    ghost var w, fuse := machine.world, machine.fuse;
    NoSuchGame(w, del, fuse, again);
    if del.game !in machine.world.db.games {
      return Failure(NotFound);
    }
    var assets := FindAssets(machine, del);
    if assets.None? {
      return Failure(WrongKind);
    }
    var found := assets.value;
    var items := Items(del.stage, found);
    ItemsAre(w, del, found);
    if found == [] {
      var gone := DoIf(machine, true, DeleteRow(del.game));
      NothingStaged(w, del, fuse, again, machine.world, machine.fuse, gone);
      return if gone then Success(()) else Failure(Broken);
    }
    var seal := SealOps(del, items);
    DeletionShape(w, del);
    var ok := DoAll(machine, seal[..1]);
    ghost var v, left := machine.world, machine.fuse;
    assert seal[..1] + seal[1..] == seal;
    if !ok {
      RanTo(seal[..1], w, fuse, v, left, ok);
      RanStops(seal[..1], seal[1..], w, fuse, v, left);
      SealFails(w, del, fuse, again, v, left);
      return Failure(Broken);
    }
    RanTo(seal[..1], w, fuse, v, left, ok);
    ok := DoAll(machine, seal[1..]);
    RanThen(seal[..1], seal[1..], seal[1..], w, fuse, v, left, true, machine.world, machine.fuse, ok);
    v, left := machine.world, machine.fuse;
    if !ok {
      SealFails(w, del, fuse, again, v, left);
      machine.Restart(again);
      ok := DoAll(machine, [RemoveAll(TrashRoot(del.stage))]);
      RanTo([RemoveAll(TrashRoot(del.stage))], v, again, machine.world, machine.fuse, ok);
      return Failure(Broken);
    }
    r := MoveAndDelete(machine, del, items, again, w, fuse);
  }

  /** Moves the assets and deletes the row, or brings the assets back. */
  method MoveAndDelete(machine: Machine, del: Deletion, items: seq<StagedItem>, again: int, ghost w: World, ghost fuse: int)
      returns (r: Result<(), DeletionError>)
    requires del.game in w.db.games && KindsMatch(w.disk, del) && items == ItemsOf(w.disk, del) && items != []
    requires Ran(SealOps(del, items), w, fuse, machine.world, machine.fuse, true)
    modifies machine
    ensures machine.world == DeletionRun(w, del, fuse, again)
    ensures r == Success(()) || r == Failure(Broken)
  {
    hide *;
    ghost var v, left := machine.world, machine.fuse;
    var stage := new AssetStage(machine, del.stage, items);
    var ok := DoAll(machine, StageOps(items));
    ghost var u, left' := machine.world, machine.fuse;
    if ok {
      ok := DoAll(machine, [DeleteRow(del.game)]);
      ghost var c, left'' := machine.world, machine.fuse;
      if ok {
        ok := stage.Finalize();
        CommitThenDrop(del, u, left', c, left'', machine.world, machine.fuse, ok);
        DeletionHolds(w, del, fuse, again, v, left, u, left', machine.world, machine.fuse, ok);
        return Success(());
      }
      CommitRefused(del, u, left', c, left'');
      StagingFails(w, del, fuse, again, v, left, u, left', true);
    } else {
      StagingFails(w, del, fuse, again, v, left, u, left', false);
    }
    machine.Restart(again);
    var clean := stage.Rollback();
    ghost var all :| Ran(RollbackOps(u, stage.stage, stage.items), u, again, machine.world, machine.fuse, all);
    RanTo(RollbackOps(u, del.stage, items), u, again, machine.world, machine.fuse, all);
    r := Failure(Broken);
  }

  // --- A deletion and the recoveries after it ------------------------------------------

  /** A failed deletion that is not cut short again puts everything back; any other is left in a state whose fate is known. */
  lemma DeletionRunState(w: World, del: Deletion, fuse: int, again: int)
    requires Ready(w, del)
    ensures DeletionState(w, del, DeletionRun(w, del, fuse, again))
    ensures again < 0 && del.game in DeletionRun(w, del, fuse, again).db.games ==> DeletionRun(w, del, fuse, again) == w
  {
    hide Run, RecoverOps, RecoverSound, Listing, ItemsOf, DeletionOps, Pending, Doomed, Gone, Unsealed, RollbackOps, TrashRoot, Ready, KindsMatch;
    var items := ItemsOf(w.disk, del);
    var k := Taken(fuse, |DeletionOps(w, del)|);
    var v := Executed(DeletionOps(w, del), w, fuse);
    var u := DeletionRun(w, del, fuse, again);
    CrashedDeletionState(w, del, k);
    DeletionShape(w, del);
    SealLength(del, items);
    ReadyGame(w, del);
    if KindsMatch(w.disk, del) && !Done(DeletionOps(w, del), fuse) && items != [] && 0 < fuse <= 3 + |items| {
      if fuse < 3 {
        UnsealedCleared(w, del, v);
        RunUpTo3([RemoveAll(TrashRoot(del.stage))][..Taken(again, 1)], v);
      } else {
        RecoverPendingOps(w, del, v);
        RecoverPending(w, del, v, Taken(again, |RecoverStageOps(v, del.stage)|));
        PendingRow(w, del, u);
      }
    }
    FateOfRow(w, del, u);
    StatesDiffer(w, del, u);
  }

  /** Every asset that is on disk is a directory or not as it is recorded. */
  predicate AsRecorded(disk: Disk, del: Deletion) {
    forall p | p in del.assets && p in disk :: p in del.directories <==> disk[p].Directory? || disk[p].Folder?
  }

  /** A deletion that nothing interrupts succeeds exactly if the assets are what their records say: all of them and everything about the game are gone then; if not, nothing changes, whatever is possible. */
  lemma DeletionSucceedsExactly(w: World, del: Deletion, fuse: int, again: int)
    requires Ready(w, del)
    ensures AsRecorded(w.disk, del) ==>
              DeletionRun(w, del, -1, again) == World(map p | p in w.disk && p !in del.assets :: w.disk[p], DeletedDb(w, del))
    ensures !AsRecorded(w.disk, del) ==> DeletionRun(w, del, fuse, again) == w
  {
    hide Run, ItemsOf, Existing, TrashRoot, Ready, RollbackOps, SealOps, StageOps, CommitOps;
    assert AsRecorded(w.disk, del) <==> KindsMatch(w.disk, del);
    var ops := DeletionOps(w, del);
    ReadyGame(w, del);
    CrashedDeletionState(w, del, |ops|);
    DeletionShape(w, del);
    if ItemsOf(w.disk, del) == [] {
      NoAssets(w, del);
      RunOne(DeleteRow(del.game), w);
      assert AsRecorded(w.disk, del) ==> ops == [DeleteRow(del.game)] && ops[..1] == ops;
    }
  }

  lemma ReadyGame(w: World, del: Deletion)
    requires Ready(w, del)
    ensures del.game in w.db.games
  {
  }

  lemma PendingRow(w: World, del: Deletion, u: World)
    requires Ready(w, del)
    ensures Pending(w, del, u) ==> del.game in u.db.games
  {
    hide Sealed, Kept;
  }

  lemma UnsealedCleared(w: World, del: Deletion, v: World)
    requires Ready(w, del) && Unsealed(w, del, v)
    ensures Apply(RemoveAll(TrashRoot(del.stage)), v) == w
  {
    hide TrashRoot, ManifestPath;
    StageRemoved(v, del.stage);
    var u := Apply(RemoveAll(TrashRoot(del.stage)), v);
    forall p: Path
      ensures Lookup(u.disk, p) == Lookup(w.disk, p)
    {
      StageInTrash(del.stage, p);
    }
    SameDisk(u.disk, w.disk);
  }

  lemma RecoverPendingOps(w: World, del: Deletion, v: World)
    requires Ready(w, del) && Pending(w, del, v)
    ensures RecoverStageOps(v, del.stage) == RollbackOps(v, del.stage, ItemsOf(w.disk, del))
  {
    hide ItemsOf, RollbackOps, TrashRoot, Sealed, Kept, LoadStage;
    SealedLoads(w, del, v);
  }
}
