/** Removing a game with everything that is its own: from the rows that record its assets to the files that go, and to those of other games that stay. */
module GameRemoval {
  import opened Wrappers
  import opened Storage
  import opened Text
  import opened AssetOwnership
  import opened DeletionItems
  import opened GameDeletions
  import opened DeletionStages

  // --- The order of assets -------------------------------------------------------------

  predicate Before(p: Path, q: Path) {
    AtMost(Joined(p), Joined(q))
  }

  predicate Sorted(paths: seq<Path>) {
    forall i, k | 0 <= i < k < |paths| :: Before(paths[i], paths[k])
  }

  function Insert(paths: seq<Path>, p: Path): seq<Path> {
    if paths == [] || Before(p, paths[0]) then [p] + paths else [paths[0]] + Insert(paths[1..], p)
  }

  lemma {:induction false} Inserted(paths: seq<Path>, p: Path)
    requires Sorted(paths) && NoDuplicates(paths) && p !in paths
    ensures var r := Insert(paths, p);
            Sorted(r) && NoDuplicates(r) && forall q :: q in r <==> q == p || q in paths
  {
    hide Before;
    if paths == [] {
    } else if Before(p, paths[0]) {
      InsertedFirst(paths, p);
    } else {
      Inserted(paths[1..], p);
      var rest := Insert(paths[1..], p);
      BeforeIsTotal(p, paths[0]);
      forall q | q in rest
        ensures Before(paths[0], q) && q != paths[0]
      {
      }
      ConsSorted(paths[0], rest);
    }
  }

  lemma BeforeIsTotal(p: Path, q: Path)
    ensures Before(p, q) || Before(q, p)
  {
    AtMostTotal(Joined(p), Joined(q));
  }

  lemma ConsSorted(p: Path, paths: seq<Path>)
    requires Sorted(paths) && NoDuplicates(paths) && forall q | q in paths :: Before(p, q) && q != p
    ensures Sorted([p] + paths) && NoDuplicates([p] + paths)
  {
    hide Before;
  }

  lemma InsertedFirst(paths: seq<Path>, p: Path)
    requires Sorted(paths) && NoDuplicates(paths) && p !in paths && paths != [] && Before(p, paths[0])
    ensures Sorted([p] + paths) && NoDuplicates([p] + paths)
  {
    hide Before;
    forall q | q in paths
      ensures Before(p, q)
    {
      BeforeThen(p, paths[0], q);
    }
    ConsSorted(p, paths);
  }

  lemma BeforeThen(p: Path, q: Path, r: Path)
    requires Before(p, q) && (q == r || Before(q, r))
    ensures Before(p, r)
  {
    if q != r {
      AtMostTransitive(Joined(p), Joined(q), Joined(r));
    }
  }

  /** The paths in the order of their names. */
  method InOrder(paths: set<Path>) returns (sorted: seq<Path>)
    ensures Sorted(sorted) && NoDuplicates(sorted) && forall p :: p in sorted <==> p in paths
  {
    hide Before, Insert;
    var left := paths;
    sorted := [];
    while left != {}
      invariant left <= paths && Sorted(sorted) && NoDuplicates(sorted)
      invariant forall p :: p in sorted <==> p in paths && p !in left
      decreases |left|
    {
      var p: Path :| p in left;
      Inserted(sorted, p);
      sorted := Insert(sorted, p);
      left := left - {p};
    }
  }

  // --- The assets of a deletion --------------------------------------------------------

  /** The deletion takes, in order, exactly what the game has on record and no other game claims, and knows which of it are directories. */
  ghost predicate Chosen(cat: Catalog, del: Deletion) {
    && Readable(cat, del.game) && Sorted(del.assets) && NoDuplicates(del.assets)
    && (forall p: Path :: p in del.assets <==> Recorded(cat, del.game, p) && !ClaimedByOther(cat, del.game, p))
    && forall p | p in del.assets :: RecordedAs(cat, del.game, Managed(p, p in del.directories))
  }

  /** Makes the list of what a game's deletion takes; there is none if a row of the game cannot be read. */
  method Choose(cat: Catalog, id: string, stage: string) returns (del: Option<Deletion>)
    ensures del.Some? <==> Readable(cat, id)
    ensures del.Some? ==> del.value.game == id && del.value.stage == stage && Chosen(cat, del.value)
  {
    hide Sorted, NoDuplicates, Recorded, ClaimedByOther, RecordedAs, Readable;
    var assets := AssetsToDelete(cat, id);
    if assets.None? {
      return None;
    }
    var order := InOrder(assets.value.Keys);
    var directories := set p | p in assets.value && assets.value[p].directory;
    forall p | p in order
      ensures Managed(p, p in directories) == assets.value[p]
    {
    }
    del := Some(Deletion(id, stage, order, directories));
  }

  lemma TrackableIsAsset(row: Row)
    requires Trackable(row)
    ensures AssetPath(row.path)
  {
    hide SafeBundleName;
  }

  /** On an empty trash the deletion of a game with a name is one that crashes and recoveries can be followed through. */
  lemma ChosenIsReady(w: World, cat: Catalog, del: Deletion)
    requires AllTrackable(cat.rows) && Chosen(cat, del) && del.game in w.db.games && Trim(del.game) != ""
    requires forall p | p in w.disk :: !InTrash(p)
    ensures Ready(w, del)
  {
    hide Sorted, NoDuplicates, ClaimedByOther, RecordedAs, Readable, Trackable, InTrash, AssetPath, Trim;
    forall i | 0 <= i < |del.assets|
      ensures AssetPath(del.assets[i])
    {
      assert del.assets[i] in del.assets;
      var k :| 0 <= k < |cat.rows| && cat.rows[k].game == del.game && cat.rows[k].path == del.assets[i];
      TrackableIsAsset(cat.rows[k]);
    }
  }

  lemma {:induction false} RecoveryKeepsRows(w: World, names: seq<string>)
    ensures Run(RecoverOps(w, names), w).db == w.db
    decreases |names|
  {
    hide RecoverStageOps, Run;
    if names == [] {
      RunNone(w);
    } else {
      var ops := RecoverStageOps(w, names[0]);
      StageKeepsRows(w, names[0]);
      RecoveryKeepsRows(Run(ops, w), names[1..]);
      RunConcat(ops, RecoverOps(Run(ops, w), names[1..]), w);
    }
  }

  lemma StageKeepsRows(w: World, name: string)
    ensures Run(RecoverStageOps(w, name), w).db == w.db
  {
    hide LoadStage, RollbackOps, TrashRoot, RestoreSound, Distinct, ValidManifest, Apply, Run;
    var ops := RecoverStageOps(w, name);
    assert ops[..|ops|] == ops;
    match LoadStage(w.disk, name) {
      case Unreadable =>
        RunNone(w);
      case Loaded(game, items) =>
        if game in w.db.games {
          RollbackKeepsAssets(w, name, game, items, |ops|);
        } else {
          RunOne(RemoveAll(TrashRoot(name)), w);
          StageRemoved(w, name);
        }
    }
  }

  /** After a recovery without an error the deletion of a game can begin. */
  lemma ReadyAfterRecovery(w: World, names: seq<string>, cat: Catalog, del: Deletion)
    requires RecoverSound(w, names) && Listed(w.disk, names)
    requires AllTrackable(cat.rows) && Chosen(cat, del) && del.game in w.db.games && Trim(del.game) != ""
    ensures Ready(Run(RecoverOps(w, names), w), del)
  {
    hide *;
    CleanRecoveryEmptiesTrash(w, names);
    RecoveryKeepsRows(w, names);
    ChosenIsReady(Run(RecoverOps(w, names), w), cat, del);
  }

  // --- The removal ---------------------------------------------------------------------

  /** Resolves what earlier deletions left, finds what is the game's own, and removes it and the game. Nothing is removed while some stage cannot be resolved, a row cannot be read, or an asset is not what its row says. */
  method DeleteGame(machine: Machine, names: seq<string>, cat: Catalog, id: string, stage: string, again: int)
      returns (r: Result<(), DeletionError>, ghost del: Deletion)
    modifies machine
    ensures var w, fuse := old(machine.world), old(machine.fuse);
            var ops := RecoverOps(w, names);
            var recovered := Executed(ops, w, fuse);
            if !RecoverSound(w, names) || !Done(ops, fuse) then machine.world == recovered && r == Failure(RecoveryFailed)
            else if id !in recovered.db.games then machine.world == recovered && r == Failure(NotFound)
            else if !Readable(cat, id) then machine.world == recovered && r == Failure(InvalidRecord)
            else
              && del.game == id && del.stage == stage && Chosen(cat, del)
              && machine.world == DeletionRun(recovered, del, Burnt(fuse, |ops|), again)
              && (r == Failure(WrongKind) <==> !KindsMatch(recovered.disk, del)) && r !in [Failure(RecoveryFailed), Failure(NotFound), Failure(InvalidRecord)]
  {
    hide *;
    ghost var w, fuse := machine.world, machine.fuse;
    del := Deletion(id, stage, [], {});
    var clean := RecoverManagedAssets(machine, names);
    ghost var all :| Ran(RecoverOps(w, names), w, fuse, machine.world, machine.fuse, all) && clean == (all && RecoverSound(w, names));
    RanTo(RecoverOps(w, names), w, fuse, machine.world, machine.fuse, all);
    if !clean {
      r := Failure(RecoveryFailed);
    } else if id !in machine.world.db.games {
      r := Failure(NotFound);
    } else {
      var chosen := Choose(cat, id, stage);
      if chosen.None? {
        r := Failure(InvalidRecord);
      } else {
        del := chosen.value;
        r := StageAndDelete(machine, chosen.value, again);
      }
    }
  }

  // --- Other games ---------------------------------------------------------------------

  /** Below a path that is on the disk there is something only if the path is a directory whose contents are listed. */
  ghost predicate Whole(disk: Disk) {
    forall p, q | p in disk && q in disk && p < q :: disk[p].Folder?
  }

  /** Nothing at or below the path has changed; what has changed above it was no directory, and then there was nothing at or below the path. */
  ghost predicate Spared(w: World, v: World, path: Path) {
    && (forall q: Path | path <= q :: Lookup(v.disk, q) == Lookup(w.disk, q))
    && forall q: Path | q <= path && Lookup(v.disk, q) != Lookup(w.disk, q) ::
         q in w.disk && !IsDirectory(w.disk, q) && forall r | r in w.disk :: !(path <= r)
  }

  /** Outside the trash only assets of the deletion that are on the disk can be missing. */
  lemma OnlyAssetsGo(w: World, del: Deletion, v: World, q: Path)
    requires Ready(w, del) && DeletionState(w, del, v) && !InTrash(q)
    ensures Lookup(v.disk, q) == Lookup(w.disk, q) || (q in del.assets && q in w.disk)
  {
    hide ItemsOf, IsPlace, ManifestPath, TrashRoot, AssetPath, Kept, AllStaged, InTrash, ValidManifest, DeletedDb;
    var items := ItemsOf(w.disk, del);
    StageInTrash(del.stage, q);
    ItemsThere(w, del);
    if IsPlace(items, q) {
      PlaceOf(items, q);
      ItemsValid(w, del);
      StagedInTrash(del.stage, items);
    }
  }

  lemma StagedInTrash(stage: string, items: seq<StagedItem>)
    requires items == [] || ValidManifest(stage, items)
    ensures forall i | 0 <= i < |items| :: InTrash(items[i].staged)
  {
    hide AssetPath, SafeSegment;
    forall i | 0 <= i < |items|
      ensures InTrash(items[i].staged)
    {
      ItemApart(stage, items[i]);
    }
  }

  lemma OtherIsNoTrash(cat: Catalog, id: string, b: ManagedAsset, q: Path)
    requires OtherAsset(cat, id, b)
    ensures |b.path| >= 2 && (b.path <= q || q <= b.path ==> !InTrash(q))
  {
    hide SafeBundleName, Clean;
    assert |TRASH| == 11 && |"covers"| == 6 && |"demos"| == 5 && |"playables"| == 9;
    assert |b.path| >= 2 && b.path[0] in ["covers", "demos", "playables"];
  }

  /** What the deletion takes above another game's asset is no directory, and nothing it takes lies at or below. */
  lemma TakenAbove(w: World, cat: Catalog, del: Deletion, b: ManagedAsset, q: Path)
    requires AllTrackable(cat.rows) && Chosen(cat, del) && KindsMatch(w.disk, del) && OtherAsset(cat, del.game, b)
    requires q in del.assets && q in w.disk && (b.path <= q || q <= b.path)
    ensures q < b.path && !IsDirectory(w.disk, q)
  {
    hide FromUrl, FromRecord, Trackable, SafeBundleName, Recorded, ClaimedByOther, OtherAsset, Sorted, NoDuplicates, Readable, RecordedAs, IsDirectory;
    var a := Managed(q, q in del.directories);
    DeletionSparesOthers(cat, del.game, a, b);
    var i :| 0 <= i < |del.assets| && del.assets[i] == q;
    assert RightKind(w.disk, del, del.assets[i]);
  }

  lemma StateSpares(w: World, cat: Catalog, del: Deletion, v: World, b: ManagedAsset)
    requires Ready(w, del) && AllTrackable(cat.rows) && Chosen(cat, del) && OtherAsset(cat, del.game, b) && Whole(w.disk)
    requires DeletionState(w, del, v) && (KindsMatch(w.disk, del) || v == w)
    ensures Spared(w, v, b.path)
  {
    hide Ready, Chosen, OtherAsset, AllTrackable, DeletionState, KindsMatch, InTrash;
    forall q: Path | (b.path <= q || q <= b.path) && Lookup(v.disk, q) != Lookup(w.disk, q)
      ensures q < b.path && q in w.disk && !IsDirectory(w.disk, q) && forall r | r in w.disk :: !(b.path <= r)
    {
      OtherIsNoTrash(cat, del.game, b, q);
      OnlyAssetsGo(w, del, v, q);
      TakenAbove(w, cat, del, b, q);
    }
  }

  lemma WrongKindStays(w: World, del: Deletion, fuse: int, again: int, interruptions: seq<nat>)
    requires Ready(w, del) && !KindsMatch(w.disk, del)
    ensures DeletionRun(w, del, fuse, again) == w && AfterInterruptions(w, del, interruptions) == w
    ensures Run(RecoverOps(w, Listing(w.disk, del)), w) == w
  {
    hide Ready, KindsMatch, Unsealed, Pending, Doomed, Gone, Run, Executed, RecoverOps, RecoverSound, Listing;
    NoSuchGame(w, del, fuse, again);
    StatesDiffer(w, del, w);
    FateIsKept(w, del, w, interruptions);
    RecoveryDecides(w, del, w, []);
    assert AfterInterruptions(w, del, []) == w;
    FateOfRow(w, del, w);
  }

  /** Wherever the deletion of a game crashes or fails, whatever of its undo is possible, and after any number of recoveries that are cut short and a complete one: every asset of another game is spared. */
  lemma OthersAreSpared(w: World, cat: Catalog, del: Deletion, fuse: int, again: int, interruptions: seq<nat>, b: ManagedAsset)
    requires Ready(w, del) && AllTrackable(cat.rows) && Chosen(cat, del) && OtherAsset(cat, del.game, b) && Whole(w.disk)
    ensures var stopped := DeletionRun(w, del, fuse, again);
            var last := AfterInterruptions(stopped, del, interruptions);
            var final := Run(RecoverOps(last, Listing(last.disk, del)), last);
            Spared(w, stopped, b.path) && Spared(w, last, b.path) && Spared(w, final, b.path)
  {
    hide Ready, KindsMatch, Unsealed, Pending, Doomed, Gone, Run, RecoverOps, RecoverSound, Listing, Chosen, OtherAsset, AllTrackable, Whole, Spared, DeletionRun, AfterInterruptions;
    var stopped := DeletionRun(w, del, fuse, again);
    var last := AfterInterruptions(stopped, del, interruptions);
    var ops := RecoverOps(last, Listing(last.disk, del));
    assert ops[..|ops|] == ops;
    DeletionRunState(w, del, fuse, again);
    FateIsKept(w, del, stopped, interruptions);
    RecoverOnce(w, del, last, -1);
    if !KindsMatch(w.disk, del) {
      WrongKindStays(w, del, fuse, again, interruptions);
    }
    StateSpares(w, cat, del, stopped, b);
    StateSpares(w, cat, del, last, b);
    StateSpares(w, cat, del, Run(ops, last), b);
  }

  lemma SparedBelow(w: World, v: World, p: Path, q: Path)
    requires Spared(w, v, p) && p <= q
    ensures Spared(w, v, q)
  {
    forall r: Path | r <= q && Lookup(v.disk, r) != Lookup(w.disk, r)
      ensures r in w.disk && !IsDirectory(w.disk, r) && forall t | t in w.disk :: !(q <= t)
    {
      PrefixesCompare(r, p, q);
      assert r <= p;
      forall t | t in w.disk
        ensures !(q <= t)
      {
        assert q <= t ==> p <= t;
      }
    }
    forall r: Path | q <= r
      ensures Lookup(v.disk, r) == Lookup(w.disk, r)
    {
      assert p <= r;
    }
  }

  lemma PrefixesCompare(a: Path, b: Path, c: Path)
    requires a <= c && b <= c
    ensures a <= b || b <= a
  {
  }

  /** Spared at every point: when the deletion stops, after recoveries that are cut short, and after a complete one. */
  ghost predicate SparedThroughout(w: World, del: Deletion, fuse: int, again: int, interruptions: seq<nat>, path: Path) {
    var stopped := DeletionRun(w, del, fuse, again);
    var last := AfterInterruptions(stopped, del, interruptions);
    var final := Run(RecoverOps(last, Listing(last.disk, del)), last);
    Spared(w, stopped, path) && Spared(w, last, path) && Spared(w, final, path)
  }

  /** The file or directory that another game's cover or player is served from is spared throughout. */
  lemma ServedIsSpared(w: World, cat: Catalog, del: Deletion, fuse: int, again: int, interruptions: seq<nat>, i: nat, cover: bool)
    requires Ready(w, del) && AllTrackable(cat.rows) && Chosen(cat, del) && Whole(w.disk)
    requires i < |cat.games| && cat.games[i].id != del.game
    requires var url := if cover then cat.games[i].cover else cat.games[i].launch;
             Clean(url) && OwnKind(url, cover) && (cover || SafeBundleName(ServedFrom(url)[1]))
    ensures SparedThroughout(w, del, fuse, again, interruptions, ServedFrom(if cover then cat.games[i].cover else cat.games[i].launch))
  {
    hide Ready, Run, RecoverOps, Listing, Chosen, OtherAsset, AllTrackable, Whole, Spared, DeletionRun, AfterInterruptions, FromUrl, OwnKind, ServedFrom, SafeBundleName, Clean;
    var url := if cover then cat.games[i].cover else cat.games[i].launch;
    AssetHoldsServed(url, cover);
    var b := FromUrl(url, cover).value;
    UrlIsOther(cat, del.game, i, cover);
    OthersAreSpared(w, cat, del, fuse, again, interruptions, b);
    var stopped := DeletionRun(w, del, fuse, again);
    var last := AfterInterruptions(stopped, del, interruptions);
    SparedBelow(w, stopped, b.path, ServedFrom(url));
    SparedBelow(w, last, b.path, ServedFrom(url));
    SparedBelow(w, Run(RecoverOps(last, Listing(last.disk, del)), last), b.path, ServedFrom(url));
  }

  lemma UrlIsOther(cat: Catalog, id: string, i: nat, cover: bool)
    requires i < |cat.games| && cat.games[i].id != id
    ensures var url := if cover then cat.games[i].cover else cat.games[i].launch;
            FromUrl(url, cover).Some? ==> OtherAsset(cat, id, FromUrl(url, cover).value)
  {
    hide FromUrl;
  }

  /** What another game has on record is spared throughout. */
  lemma RecordedIsSpared(w: World, cat: Catalog, del: Deletion, fuse: int, again: int, interruptions: seq<nat>, k: nat)
    requires Ready(w, del) && AllTrackable(cat.rows) && Chosen(cat, del) && Whole(w.disk)
    requires k < |cat.rows| && cat.rows[k].game != del.game
    ensures SparedThroughout(w, del, fuse, again, interruptions, cat.rows[k].path)
  {
    hide Ready, Run, RecoverOps, Listing, Chosen, Whole, Spared, DeletionRun, AfterInterruptions, FromRecord;
    assert Trackable(cat.rows[k]);
    OthersAreSpared(w, cat, del, fuse, again, interruptions, Managed(cat.rows[k].path, cat.rows[k].directory));
  }
}
