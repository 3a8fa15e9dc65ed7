/** Deleting a game: its steps in order, and what any number of crashes and recoveries leave. */
module GameDeletions {
  import opened Wrappers
  import opened Storage
  import opened Text
  import opened DeletionItems
  import DeletionLabels

  const TRASH: string := ".atri-trash"

  function TrashRoot(stage: string): Path {
    [TRASH, stage]
  }

  function ManifestPath(stage: string): Path {
    TrashRoot(stage) + ["manifest.json"]
  }

  function TemporaryPath(stage: string): Path {
    TrashRoot(stage) + ["manifest.json.tmp"]
  }

  function FilesRoot(stage: string): Path {
    TrashRoot(stage) + ["files"]
  }

  predicate InTrash(p: Path) {
    |p| > 0 && p[0] == TRASH
  }

  /** A game, the name of its stage, the assets to remove, in order, and which of them are directories. */
  datatype Deletion = Deletion(game: string, stage: string, assets: seq<Path>, directories: set<Path>)

  predicate RightKind(disk: Disk, del: Deletion, p: Path) {
    p in disk ==> (p in del.directories <==> IsDirectory(disk, p))
  }

  /** What is on disk is a directory or a file, as the asset says. */
  predicate KindsMatch(disk: Disk, del: Deletion) {
    forall i | 0 <= i < |del.assets| :: RightKind(disk, del, del.assets[i])
  }

  // --- The steps -----------------------------------------------------------------------

  function Existing(disk: Disk, assets: seq<Path>): (found: seq<Path>)
    ensures forall i | 0 <= i < |found| :: found[i] in disk && found[i] in assets
  {
    if assets == [] then []
    else (if assets[0] in disk then [assets[0]] else []) + Existing(disk, assets[1..])
  }

  /** The trash name of an asset carries its number. */
  function Item(stage: string, found: seq<Path>, i: nat): StagedItem
    requires i < |found|
  {
    StagedItem(found[i], FilesRoot(stage) + [DeletionLabels.Label(i, if found[i] == [] then "" else found[i][|found[i]| - 1])])
  }

  function Items(stage: string, found: seq<Path>): (items: seq<StagedItem>)
    ensures |items| == |found|
    ensures forall i | 0 <= i < |items| :: items[i] == Item(stage, found, i)
  {
    seq(|found|, i requires 0 <= i < |found| => Item(stage, found, i))
  }

  function ItemsOf(disk: Disk, del: Deletion): seq<StagedItem> {
    Items(del.stage, Existing(disk, del.assets))
  }

  function SealOps(del: Deletion, items: seq<StagedItem>): seq<Op> {
    [Write(TrashRoot(del.stage), Folder),
     Write(TemporaryPath(del.stage), DeletionManifest(del.game, items)),
     Move(TemporaryPath(del.stage), ManifestPath(del.stage))]
  }

  function CommitOps(del: Deletion): seq<Op> {
    [DeleteRow(del.game), RemoveAll(TrashRoot(del.stage))]
  }

  function DeletionOps(w: World, del: Deletion): seq<Op> {
    var items := ItemsOf(w.disk, del);
    if !KindsMatch(w.disk, del) then []
    else if items == [] then [DeleteRow(del.game)]
    else SealOps(del, items) + (StageOps(items) + CommitOps(del))
  }

  // --- Recovery ------------------------------------------------------------------------

  predicate AssetPath(p: Path) {
    Clean(p) && |p| > 1 && p[0] in ["covers", "demos", "playables"]
  }

  /** Assets come from three directories, the trash names from one, and nothing is listed twice. */
  predicate ValidManifest(stage: string, items: seq<StagedItem>) {
    && items != []
    && (forall i | 0 <= i < |items| :: AssetPath(items[i].original))
    && (forall i | 0 <= i < |items| :: |items[i].staged| == 4 && FilesRoot(stage) <= items[i].staged && SafeSegment(items[i].staged[3]))
    && (forall i, k | 0 <= i < k < |items| :: items[i].original != items[k].original && items[i].staged != items[k].staged)
  }

  datatype Load = Unreadable | Loaded(game: string, items: seq<StagedItem>)

  function LoadStage(disk: Disk, stage: string): Load {
    match Lookup(disk, ManifestPath(stage))
    case Some(DeletionManifest(game, items)) => if Trim(game) != "" && ValidManifest(stage, items) then Loaded(game, items) else Unreadable
    case _ => Unreadable
  }

  /** The asset leads straight down into one of the three asset directories, its place in the trash is a file of the stage. */
  predicate Placed(stage: string, item: StagedItem) {
    && |item.original| >= 2 && item.original[0] in {"covers", "demos", "playables"} && Walk([], item.original) == item.original
    && |item.staged| == 4 && item.staged[3] !in {"", ".", ".."} && item.staged == [".atri-trash", stage, "files", item.staged[3]]
  }

  lemma PlacedExactly(stage: string, item: StagedItem)
    ensures Placed(stage, item) <==> AssetPath(item.original) && |item.staged| == 4 && FilesRoot(stage) <= item.staged && SafeSegment(item.staged[3])
  {
    hide Clean, Walk;
    CleanExactly([], item.original);
    assert [] + item.original == item.original;
    assert FilesRoot(stage) == [".atri-trash", stage, "files"];
  }

  /** A manifest loads exactly if it is where it should be, names a game and has items, all of them placed as they should be and no place named twice. */
  lemma LoadsExactly(disk: Disk, stage: string, game: string, items: seq<StagedItem>)
    ensures LoadStage(disk, stage) == Loaded(game, items) <==>
      && Lookup(disk, [".atri-trash", stage, "manifest.json"]) == Some(DeletionManifest(game, items))
      && !AllBlank(game) && items != [] && (forall i | 0 <= i < |items| :: Placed(stage, items[i]))
      && (forall i, k | 0 <= i < k < |items| :: items[i].original != items[k].original && items[i].staged != items[k].staged)
  {
    hide Trim, AssetPath, FilesRoot, SafeSegment, Placed, AllBlank;
    TrimBlank(game);
    assert ManifestPath(stage) == [".atri-trash", stage, "manifest.json"];
    forall i | 0 <= i < |items|
      ensures Placed(stage, items[i])
         <==> AssetPath(items[i].original) && |items[i].staged| == 4 && FilesRoot(stage) <= items[i].staged && SafeSegment(items[i].staged[3])
    {
      PlacedExactly(stage, items[i]);
    }
  }

  function RollbackOps(w: World, stage: string, items: seq<StagedItem>): seq<Op> {
    RestoreOps(w, items) + if RestoreSound(w, items) then [RemoveAll(TrashRoot(stage))] else []
  }

  /** A stage whose game is still there goes back, one whose game is gone is removed; an unreadable one stays. */
  function RecoverStageOps(w: World, stage: string): seq<Op> {
    match LoadStage(w.disk, stage)
    case Unreadable => []
    case Loaded(game, items) => if game in w.db.games then RollbackOps(w, stage, items) else [RemoveAll(TrashRoot(stage))]
  }

  predicate RecoverStageSound(w: World, stage: string) {
    match LoadStage(w.disk, stage)
    case Unreadable => false
    case Loaded(game, items) => game in w.db.games ==> RestoreSound(w, items)
  }

  function RecoverOps(w: World, names: seq<string>): seq<Op>
    decreases |names|
  {
    if names == [] then []
    else
      var ops := RecoverStageOps(w, names[0]);
      ops + RecoverOps(Run(ops, w), names[1..])
  }

  /** Recovery reports no error. */
  predicate RecoverSound(w: World, names: seq<string>)
    decreases |names|
  {
    names == [] || (RecoverStageSound(w, names[0]) && RecoverSound(Run(RecoverStageOps(w, names[0]), w), names[1..]))
  }

  // --- Paths ---------------------------------------------------------------------------

  /** The places of a manifest that loads never coincide. */
  lemma ValidDistinct(stage: string, items: seq<StagedItem>)
    requires ValidManifest(stage, items)
    ensures Distinct(items)
    ensures forall i | 0 <= i < |items| :: !InTrash(items[i].original) && !(TrashRoot(stage) <= items[i].original) && TrashRoot(stage) <= items[i].staged
    ensures !IsPlace(items, ManifestPath(stage)) && !IsPlace(items, TrashRoot(stage))
  {
    hide AssetPath, SafeSegment;
    forall i | 0 <= i < |items|
      ensures !InTrash(items[i].original) && !(TrashRoot(stage) <= items[i].original) && TrashRoot(stage) <= items[i].staged && InTrash(items[i].staged)
    {
      ItemApart(stage, items[i]);
    }
    assert |ManifestPath(stage)| == 3 && InTrash(ManifestPath(stage)) && |TrashRoot(stage)| == 2 && InTrash(TrashRoot(stage));
  }

  lemma StageInTrash(stage: string, p: Path)
    ensures TrashRoot(stage) <= p ==> InTrash(p)
  {
  }

  lemma ItemApart(stage: string, item: StagedItem)
    requires AssetPath(item.original) && FilesRoot(stage) <= item.staged
    ensures !InTrash(item.original) && !(TrashRoot(stage) <= item.original) && InTrash(item.staged) && TrashRoot(stage) <= item.staged
  {
    hide Clean;
    assert |TRASH| == 11 && |"covers"| == 6 && |"demos"| == 5 && |"playables"| == 9;
    StageInTrash(stage, item.original);
    assert item.staged[0] == FilesRoot(stage)[0];
    assert TrashRoot(stage) <= FilesRoot(stage);
  }

  // --- Recovery of any stage on any disk -----------------------------------------------

  /** Undoing a deletion up to any step, on whatever disk: every asset stays where it is or goes back to its free place, nothing else outside the stage changes, and the stage is removed exactly when every asset was at one place only. */
  lemma RollbackKeepsAssets(w: World, stage: string, game: string, items: seq<StagedItem>, k: nat)
    requires LoadStage(w.disk, stage) == Loaded(game, items) && game in w.db.games
    requires k <= |RecoverStageOps(w, stage)|
    ensures var ops := RecoverStageOps(w, stage);
            var v := Run(ops[..k], w);
            && v.db == w.db
            && (forall p: Path | !IsPlace(items, p) && !(TrashRoot(stage) <= p) :: Lookup(v.disk, p) == Lookup(w.disk, p))
            && (k < |ops| || !RecoverStageSound(w, stage) ==>
                  Returning(w.disk, v.disk, items) && SameBeyond(w.disk, v.disk, items))
            && (k == |ops| && RecoverStageSound(w, stage) ==>
                  && (forall p | p in v.disk :: !(TrashRoot(stage) <= p))
                  && (forall i | 0 <= i < |items| :: Lookup(v.disk, items[i].original) == Restored(PairOf(w.disk, items[i])).original))
    ensures RecoverStageSound(w, stage) <==> AllExact(w.disk, items)
  {
    hide Run, Apply, RestoreOps, RestoreSound, Distinct, SameBeyond, IsPlace, Returning, TrashRoot, AllExact, Restored, ValidManifest;
    ValidDistinct(stage, items);
    var undo := RestoreOps(w, items);
    var ops := RecoverStageOps(w, stage);
    RestorePrefix(w, items, |undo|);
    assert undo[..|undo|] == undo;
    if k < |undo| {
      RestorePrefix(w, items, k);
      assert ops[..k] == undo[..k];
      SameOutsideStage(w.disk, Run(ops[..k], w).disk, stage, items);
    } else {
      RunSplit(undo, ops[|undo|..], w, k);
      assert ops == undo + ops[|undo|..];
      var mid := Run(undo, w);
      SameOutsideStage(w.disk, mid.disk, stage, items);
      if k == |undo| {
        assert ops[|undo|..][..0] == [];
        RunNone(mid);
      } else {
        assert ops[|undo|..][..1] == [RemoveAll(TrashRoot(stage))];
        RunUpTo3([RemoveAll(TrashRoot(stage))], mid);
        StageRemoved(mid, stage);
      }
    }
  }

  lemma SameOutsideStage(a: Disk, b: Disk, stage: string, items: seq<StagedItem>)
    requires SameBeyond(a, b, items)
    ensures forall p: Path | !IsPlace(items, p) && !(TrashRoot(stage) <= p) :: Lookup(b, p) == Lookup(a, p)
  {
    hide IsPlace;
  }

  lemma StageRemoved(w: World, stage: string)
    ensures var v := Apply(RemoveAll(TrashRoot(stage)), w);
            && v.db == w.db
            && (forall p | p in v.disk :: !(TrashRoot(stage) <= p))
            && (forall p: Path :: Lookup(v.disk, p) == if TrashRoot(stage) <= p then None else Lookup(w.disk, p))
  {
  }

  /** The names list every directory of the trash. */
  ghost predicate Listed(disk: Disk, names: seq<string>) {
    forall p | p in disk && InTrash(p) :: |p| > 1 && p[1] in names
  }

  /** A stage that is resolved without an error is gone, and nothing new has come into the trash. */
  lemma ResolvedStage(w: World, stage: string)
    requires RecoverStageSound(w, stage)
    ensures var v := Run(RecoverStageOps(w, stage), w);
            forall p | p in v.disk && InTrash(p) :: p in w.disk && !(TrashRoot(stage) <= p)
  {
    hide Run, Apply, RollbackOps, Restored, Returning, SameBeyond, AllExact, ValidManifest, TrashRoot, IsPlace;
    var Loaded(game, items) := LoadStage(w.disk, stage);
    var ops := RecoverStageOps(w, stage);
    var v := Run(ops, w);
    if game in w.db.games {
      assert ops[..|ops|] == ops;
      RollbackKeepsAssets(w, stage, game, items, |ops|);
      LoadedIsValid(w, stage);
      ValidDistinct(stage, items);
      forall p | p in v.disk && InTrash(p)
        ensures p in w.disk && !(TrashRoot(stage) <= p)
      {
        if IsPlace(items, p) {
          PlaceOf(items, p);
        }
        assert Lookup(v.disk, p) == Lookup(w.disk, p);
      }
    } else {
      RunOne(RemoveAll(TrashRoot(stage)), w);
      StageRemoved(w, stage);
      assert forall p | p in v.disk :: Lookup(v.disk, p).Some?;
    }
  }

  lemma LoadedIsValid(w: World, stage: string)
    ensures LoadStage(w.disk, stage).Loaded? ==> ValidManifest(stage, LoadStage(w.disk, stage).items)
  {
    hide ValidManifest;
  }

  /** A recovery without errors leaves an empty trash. */
  lemma {:induction false} CleanRecoveryEmptiesTrash(w: World, names: seq<string>)
    requires RecoverSound(w, names) && Listed(w.disk, names)
    ensures forall p | p in Run(RecoverOps(w, names), w).disk :: !InTrash(p)
    decreases |names|
  {
    hide RecoverStageSound, RecoverStageOps, Run, TrashRoot;
    if names == [] {
      RunNone(w);
    } else {
      var ops := RecoverStageOps(w, names[0]);
      var v := Run(ops, w);
      ResolvedStage(w, names[0]);
      forall p | p in v.disk && InTrash(p)
        ensures |p| > 1 && p[1] in names[1..]
      {
        InsideStage(p);
      }
      CleanRecoveryEmptiesTrash(v, names[1..]);
      RunConcat(ops, RecoverOps(v, names[1..]), w);
    }
  }

  lemma InsideStage(p: Path)
    requires InTrash(p) && |p| > 1
    ensures TrashRoot(p[1]) <= p
  {
    assert p[..2] == TrashRoot(p[1]);
  }

  // --- The deletion of one game --------------------------------------------------------

  /** The trash is empty, as a recovery without errors leaves it; the assets are distinct managed paths and the game is there. */
  ghost predicate Ready(w: World, del: Deletion) {
    && del.game in w.db.games && Trim(del.game) != ""
    && (forall p | p in w.disk :: !InTrash(p))
    && (forall i | 0 <= i < |del.assets| :: AssetPath(del.assets[i]))
    && NoDuplicates(del.assets)
  }

  predicate NoDuplicates(s: seq<Path>) {
    forall i, k | 0 <= i < k < |s| :: s[i] != s[k]
  }

  lemma NoDuplicatesCons(p: Path, s: seq<Path>)
    requires NoDuplicates(s) && p !in s
    ensures NoDuplicates([p] + s)
  {
    var t := [p] + s;
    forall i, k | 0 <= i < k < |t|
      ensures t[i] != t[k]
    {
      assert t[k] == s[k - 1];
    }
  }

  lemma NoDuplicatesTail(s: seq<Path>)
    requires NoDuplicates(s) && s != []
    ensures NoDuplicates(s[1..]) && s[0] !in s[1..]
  {
  }

  lemma {:induction false} ExistingDistinct(disk: Disk, assets: seq<Path>)
    requires NoDuplicates(assets)
    ensures NoDuplicates(Existing(disk, assets))
    ensures forall p | p in Existing(disk, assets) :: p in assets && p in disk
  {
    hide NoDuplicates;
    if assets != [] {
      NoDuplicatesTail(assets);
      ExistingDistinct(disk, assets[1..]);
      var rest := Existing(disk, assets[1..]);
      if assets[0] in disk {
        NoDuplicatesCons(assets[0], rest);
        assert Existing(disk, assets) == [assets[0]] + rest;
      } else {
        assert Existing(disk, assets) == rest;
      }
      assert forall p | p in assets[1..] :: p in assets;
    } else {
      assert NoDuplicates(assets);
    }
  }

  lemma {:induction false} ExistingFinds(disk: Disk, assets: seq<Path>, p: Path)
    requires p in assets && p in disk
    ensures p in Existing(disk, assets)
  {
    if p != assets[0] {
      ExistingFinds(disk, assets[1..], p);
    }
  }

  /** The manifest a deletion writes is one that loads. */
  lemma ItemsValid(w: World, del: Deletion)
    requires Ready(w, del)
    ensures ItemsOf(w.disk, del) == [] || ValidManifest(del.stage, ItemsOf(w.disk, del))
  {
    hide Existing, Item, FilesRoot, InTrash, AssetPath, Trim, SafeSegment;
    var found := Existing(w.disk, del.assets);
    assert forall p | p in del.assets :: AssetPath(p);
    ExistingDistinct(w.disk, del.assets);
    forall i | 0 <= i < |found|
      ensures Item(del.stage, found, i).original == found[i] && FilesRoot(del.stage) <= Item(del.stage, found, i).staged
              && |Item(del.stage, found, i).staged| == 4 && SafeSegment(Item(del.stage, found, i).staged[3])
    {
      ItemForm(del.stage, found, i);
    }
    forall i, k | 0 <= i < k < |found|
      ensures Item(del.stage, found, i).staged != Item(del.stage, found, k).staged
    {
      if Item(del.stage, found, i).staged == Item(del.stage, found, k).staged {
        LabelsOf(del.stage, found, i, k);
      }
    }
    var items := ItemsOf(w.disk, del);
    assert |items| == |found| && forall i | 0 <= i < |items| :: items[i] == Item(del.stage, found, i);
    forall i | 0 <= i < |items|
      ensures AssetPath(items[i].original)
      ensures |items[i].staged| == 4 && FilesRoot(del.stage) <= items[i].staged && SafeSegment(items[i].staged[3])
    {
      assert found[i] in del.assets;
    }
  }

  lemma ItemForm(stage: string, found: seq<Path>, i: nat)
    requires i < |found|
    ensures Item(stage, found, i).original == found[i] && FilesRoot(stage) <= Item(stage, found, i).staged
    ensures |Item(stage, found, i).staged| == 4 && SafeSegment(Item(stage, found, i).staged[3])
  {
    var base := if found[i] == [] then "" else found[i][|found[i]| - 1];
    assert Item(stage, found, i).staged[3] == DeletionLabels.Label(i, base);
    LabelIsSafe(i, base);
  }

  lemma LabelIsSafe(n: nat, base: string)
    ensures SafeSegment(DeletionLabels.Label(n, base))
  {
    hide DeletionLabels.Digits;
    assert |DeletionLabels.Digits(n)| > 0 by {
      DigitsSome(n);
    }
    if n >= 100 {
      assert |DeletionLabels.Digits(n)| > 2 by {
        DigitsLong(n);
      }
    }
  }

  lemma DigitsSome(n: nat)
    ensures |DeletionLabels.Digits(n)| > 0
  {
  }

  lemma DigitsLong(n: nat)
    requires n >= 100
    ensures |DeletionLabels.Digits(n)| > 2
  {
    DigitsSome(n / 10 / 10);
  }

  lemma LabelsOf(stage: string, found: seq<Path>, i: nat, k: nat)
    requires i < |found| && k < |found| && Item(stage, found, i).staged == Item(stage, found, k).staged
    ensures i == k
  {
    var a := if found[i] == [] then "" else found[i][|found[i]| - 1];
    var b := if found[k] == [] then "" else found[k][|found[k]| - 1];
    assert Item(stage, found, i).staged[3] == DeletionLabels.Label(i, a);
    assert Item(stage, found, k).staged[3] == DeletionLabels.Label(k, b);
    DeletionLabels.LabelsDiffer(i, a, k, b);
  }

  function TreesOf(disk: Disk, items: seq<StagedItem>): (trees: seq<Entry>)
    requires forall i | 0 <= i < |items| :: items[i].original in disk
    ensures |trees| == |items| && forall i | 0 <= i < |items| :: trees[i] == disk[items[i].original]
  {
    seq(|items|, i requires 0 <= i < |items| => disk[items[i].original])
  }

  /** The rows without the game, its package, its cover and its receipts. */
  function DeletedDb(w: World, del: Deletion): Database {
    Database(w.db.games - {del.game}, w.db.packages - {del.game}, w.db.covers - {del.game},
             map t | t in w.db.receipts && w.db.receipts[t].game != del.game :: w.db.receipts[t])
  }

  /** The disk without the assets that were found. */
  function WithoutAssets(disk: Disk, del: Deletion): Disk {
    map p | p in disk && p !in del.assets :: disk[p]
  }

  // --- The states between the steps ----------------------------------------------------

  /** Nothing but the trash directory has changed, and there is no manifest in it. */
  ghost predicate Unsealed(w: World, del: Deletion, v: World) {
    && v.db == w.db && Lookup(v.disk, TrashRoot(del.stage)) == Some(Folder) && ManifestPath(del.stage) !in v.disk
    && forall p: Path | !(TrashRoot(del.stage) <= p) :: Lookup(v.disk, p) == Lookup(w.disk, p)
  }

  /** The stage is sealed; nothing outside it and the assets has changed. */
  ghost predicate Sealed(w: World, del: Deletion, v: World) {
    var items := ItemsOf(w.disk, del);
    && items != []
    && Lookup(v.disk, TrashRoot(del.stage)) == Some(Folder)
    && Lookup(v.disk, ManifestPath(del.stage)) == Some(DeletionManifest(del.game, items))
    && forall p: Path | !IsPlace(items, p) && !(TrashRoot(del.stage) <= p) :: Lookup(v.disk, p) == Lookup(w.disk, p)
  }

  /** Every asset is at exactly one of its two places, with its tree. */
  ghost predicate Kept(w: World, del: Deletion, v: World) {
    var items := ItemsOf(w.disk, del);
    forall i | 0 <= i < |items| ::
      var tree := Lookup(w.disk, items[i].original);
      PairOf(v.disk, items[i]) == Pair(tree, None) || PairOf(v.disk, items[i]) == Pair(None, tree)
  }

  ghost predicate AllStaged(w: World, del: Deletion, v: World) {
    var items := ItemsOf(w.disk, del);
    forall i | 0 <= i < |items| :: PairOf(v.disk, items[i]).original == None
  }

  /** The game is there and the assets can all go back. */
  ghost predicate Pending(w: World, del: Deletion, v: World) {
    v.db == w.db && Sealed(w, del, v) && Kept(w, del, v)
  }

  /** The game is gone and the assets are all in the trash. */
  ghost predicate Doomed(w: World, del: Deletion, v: World) {
    v.db == DeletedDb(w, del) && Sealed(w, del, v) && AllStaged(w, del, v)
  }

  predicate Gone(w: World, del: Deletion, v: World) {
    v == World(WithoutAssets(w.disk, del), DeletedDb(w, del))
  }

  // --- A crash of the deletion ---------------------------------------------------------

  /** Where a crash of the deletion can leave the world. */
  ghost predicate DeletionState(w: World, del: Deletion, v: World) {
    v == w || Unsealed(w, del, v) || Pending(w, del, v) || Doomed(w, del, v) || Gone(w, del, v)
  }

  lemma StagePathsOf(stage: string)
    ensures TrashRoot(stage) <= ManifestPath(stage) && TrashRoot(stage) <= TemporaryPath(stage)
    ensures ManifestPath(stage) != TemporaryPath(stage) && ManifestPath(stage) != TrashRoot(stage) && TemporaryPath(stage) != TrashRoot(stage)
    ensures InTrash(TrashRoot(stage)) && InTrash(ManifestPath(stage)) && InTrash(TemporaryPath(stage))
  {
    assert |"manifest.json"| != |"manifest.json.tmp"|;
    assert ManifestPath(stage)[2] == "manifest.json" && TemporaryPath(stage)[2] == "manifest.json.tmp";
  }

  lemma Sealing(w: World, del: Deletion, items: seq<StagedItem>, k: nat)
    requires Ready(w, del) && k <= 3
    ensures var v := Run(SealOps(del, items)[..k], w);
            && v.db == w.db
            && (k == 0 ==> v == w)
            && (0 < k < 3 ==> Unsealed(w, del, v))
            && (k == 3 ==> Lookup(v.disk, TrashRoot(del.stage)) == Some(Folder)
                           && Lookup(v.disk, ManifestPath(del.stage)) == Some(DeletionManifest(del.game, items))
                           && forall p: Path | p != TrashRoot(del.stage) && p != ManifestPath(del.stage) :: Lookup(v.disk, p) == Lookup(w.disk, p))
  {
    hide TrashRoot, ManifestPath, TemporaryPath, AssetPath, NoDuplicates, Trim, InTrash;
    StagePathsOf(del.stage);
    assert forall p | p in w.disk :: !InTrash(p);
    RunUpTo3(SealOps(del, items)[..k], w);
  }

  /** The sealed stage, before the first asset is moved. */
  lemma SealedStart(w: World, del: Deletion)
    requires Ready(w, del) && ItemsOf(w.disk, del) != []
    ensures var items := ItemsOf(w.disk, del);
            var v := Run(SealOps(del, items), w);
            && v.db == w.db && Sealed(w, del, v) && ValidManifest(del.stage, items)
            && (forall i | 0 <= i < |items| :: items[i].original in w.disk)
            && StagedUpTo(v.disk, items, TreesOf(w.disk, items), 0)
  {
    hide Run, SealOps, Existing, ItemsOf, FilesRoot, ManifestPath, TrashRoot, ValidManifest, InTrash, IsPlace;
    var items := ItemsOf(w.disk, del);
    ItemsValid(w, del);
    ItemsThere(w, del);
    ValidDistinct(del.stage, items);
    Sealing(w, del, items, 3);
    StagePathsOf(del.stage);
    assert SealOps(del, items)[..3] == SealOps(del, items) by {
      SealLength(del, items);
    }
    var v := Run(SealOps(del, items), w);
    forall i | 0 <= i < |items|
      ensures PairOf(v.disk, items[i]) == Pair(Some(w.disk[items[i].original]), None)
    {
      ItemFree(w, del, items, i);
    }
  }

  lemma SealLength(del: Deletion, items: seq<StagedItem>)
    ensures |SealOps(del, items)| == 3
  {
  }

  lemma ItemsThere(w: World, del: Deletion)
    ensures var items := ItemsOf(w.disk, del);
            && (forall i | 0 <= i < |items| :: items[i].original in w.disk && items[i].original in del.assets)
  {
  }

  lemma ItemFree(w: World, del: Deletion, items: seq<StagedItem>, i: nat)
    requires Ready(w, del) && ValidManifest(del.stage, items) && i < |items|
    ensures items[i].staged !in w.disk
    ensures items[i].staged != TrashRoot(del.stage) && items[i].staged != ManifestPath(del.stage)
    ensures items[i].original != TrashRoot(del.stage) && items[i].original != ManifestPath(del.stage)
  {
    ItemApart(del.stage, items[i]);
    StagePathsOf(del.stage);
    assert |TrashRoot(del.stage)| == 2 && |ManifestPath(del.stage)| == 3;
  }

  /** While assets are being moved, each is at one place and all can go back. */
  lemma WhileStaging(w: World, del: Deletion, k: nat)
    requires Ready(w, del) && ItemsOf(w.disk, del) != [] && k <= |ItemsOf(w.disk, del)|
    ensures var items := ItemsOf(w.disk, del);
            var v := Run(SealOps(del, items), w);
            var c := Run(StageOps(items)[..k], v);
            && Pending(w, del, c) && (k == |items| ==> AllStaged(w, del, c))
  {
    hide Run, SealOps, Existing, ItemsOf, ManifestPath, TrashRoot, ValidManifest, InTrash, IsPlace, Distinct, StageOps;
    var items := ItemsOf(w.disk, del);
    SealedStart(w, del);
    ValidDistinct(del.stage, items);
    var v := Run(SealOps(del, items), w);
    StagePrefix(v, items, TreesOf(w.disk, items), k);
    var c := Run(StageOps(items)[..k], v);
  }

  /** The row goes, with everything that hangs on it. */
  lemma RowDeleted(w: World, del: Deletion, c: World)
    requires Pending(w, del, c) && AllStaged(w, del, c)
    ensures Doomed(w, del, Apply(DeleteRow(del.game), c))
  {
    hide ItemsOf, IsPlace, TrashRoot, ManifestPath, PairOf;
  }

  lemma AssetIsPlace(w: World, del: Deletion, p: Path)
    requires p in w.disk && p in del.assets
    ensures IsPlace(ItemsOf(w.disk, del), p)
  {
    var items := ItemsOf(w.disk, del);
    var found := Existing(w.disk, del.assets);
    ExistingFinds(w.disk, del.assets, p);
    var i :| 0 <= i < |found| && found[i] == p;
    assert items[i].original == p;
    assert p in PathsOf(items[i]);
  }

  /** Once the trash is removed, the assets are gone and nothing else is. */
  lemma TrashRemoved(w: World, del: Deletion, v: World)
    requires Ready(w, del) && Doomed(w, del, v)
    ensures Gone(w, del, Apply(RemoveAll(TrashRoot(del.stage)), v))
  {
    hide ItemsOf, IsPlace, TrashRoot, ManifestPath, ValidManifest, DeletedDb, Apply;
    var items := ItemsOf(w.disk, del);
    var after := Apply(RemoveAll(TrashRoot(del.stage)), v);
    StageRemoved(v, del.stage);
    ItemsValid(w, del);
    ValidDistinct(del.stage, items);
    ItemsThere(w, del);
    forall p: Path
      ensures Lookup(after.disk, p) == Lookup(WithoutAssets(w.disk, del), p)
    {
      StageInTrash(del.stage, p);
      if p in w.disk && p in del.assets {
        AssetIsPlace(w, del, p);
      }
      if IsPlace(items, p) {
        PlaceOf(items, p);
      }
    }
    SameDisk(after.disk, WithoutAssets(w.disk, del));
  }

  lemma PlaceOf(items: seq<StagedItem>, p: Path)
    requires IsPlace(items, p)
    ensures exists i | 0 <= i < |items| :: p == items[i].original || p == items[i].staged
  {
  }

  /** Where a crash at step k leaves the world. */
  lemma CrashedDeletionState(w: World, del: Deletion, k: nat)
    requires Ready(w, del) && k <= |DeletionOps(w, del)|
    ensures var v := Run(DeletionOps(w, del)[..k], w);
            var n := |ItemsOf(w.disk, del)|;
            if !KindsMatch(w.disk, del) then v == w
            else if n == 0 then v == w || Gone(w, del, v)
            else if k == 0 then v == w
            else if k < 3 then Unsealed(w, del, v)
            else if k <= 3 + n then Pending(w, del, v)
            else if k == 4 + n then Doomed(w, del, v)
            else Gone(w, del, v)
  {
    hide Run, Existing, ItemsOf, ManifestPath, TrashRoot, ValidManifest, InTrash, IsPlace, Distinct, StageOps, SealOps, Apply, Pending, Doomed, Gone, Unsealed, AllStaged, Ready, RightKind;
    var items := ItemsOf(w.disk, del);
    var ops := DeletionOps(w, del);
    if !KindsMatch(w.disk, del) {
      RunNone(w);
      assert ops[..k] == [];
    } else if items == [] {
      NoAssets(w, del);
      RunUpTo3(ops[..k], w);
    } else {
      SealLength(del, items);
      var v := Run(SealOps(del, items), w);
      RunSplit(SealOps(del, items), StageOps(items) + CommitOps(del), w, k);
      if k < 3 {
        Sealing(w, del, items, k);
      } else if k <= 3 + |items| {
        RunSplit(StageOps(items), CommitOps(del), v, k - 3);
        WhileStaging(w, del, k - 3);
      } else {
        RunSplit(StageOps(items), CommitOps(del), v, k - 3);
        WhileStaging(w, del, |items|);
        assert StageOps(items)[..|items|] == StageOps(items);
        var c := Run(StageOps(items), v);
        RowDeleted(w, del, c);
        TrashRemoved(w, del, Apply(DeleteRow(del.game), c));
        RunUpTo3(CommitOps(del)[..k - 3 - |items|], c);
      }
    }
  }

  lemma NoAssets(w: World, del: Deletion)
    requires ItemsOf(w.disk, del) == []
    ensures Gone(w, del, Apply(DeleteRow(del.game), w))
  {
    var found := Existing(w.disk, del.assets);
    assert |ItemsOf(w.disk, del)| == |found|;
    forall p | p in w.disk
      ensures p !in del.assets
    {
      if p in del.assets {
        ExistingFinds(w.disk, del.assets, p);
      }
    }
    assert WithoutAssets(w.disk, del) == w.disk;
  }

  // --- Recovery, interrupted or not ----------------------------------------------------

  /** The directories that recovery finds: only the stage of the deletion can be there. */
  function Listing(disk: Disk, del: Deletion): seq<string> {
    if TrashRoot(del.stage) in disk then [del.stage] else []
  }

  lemma OneStage(v: World, stage: string)
    ensures RecoverOps(v, [stage]) == RecoverStageOps(v, stage)
    ensures RecoverSound(v, [stage]) <==> RecoverStageSound(v, stage)
  {
    hide RecoverStageOps, RecoverStageSound, Run;
    assert [stage][1..] == [];
  }

  lemma SealedLoads(w: World, del: Deletion, v: World)
    requires Ready(w, del) && Sealed(w, del, v)
    ensures LoadStage(v.disk, del.stage) == Loaded(del.game, ItemsOf(w.disk, del)) && TrashRoot(del.stage) in v.disk
  {
    hide ItemsOf, IsPlace, TrashRoot, ManifestPath, ValidManifest;
    ItemsValid(w, del);
  }

  lemma KeptReturns(w: World, del: Deletion, v: World, u: World)
    requires Ready(w, del) && Pending(w, del, v) && u.db == v.db
    requires Returning(v.disk, u.disk, ItemsOf(w.disk, del)) && SameBeyond(v.disk, u.disk, ItemsOf(w.disk, del))
    ensures Pending(w, del, u)
  {
    hide ItemsOf, IsPlace, TrashRoot, ManifestPath, ValidManifest, PairOf;
    var items := ItemsOf(w.disk, del);
    ItemsValid(w, del);
    ValidDistinct(del.stage, items);
    assert Lookup(u.disk, TrashRoot(del.stage)) == Lookup(v.disk, TrashRoot(del.stage));
    assert Lookup(u.disk, ManifestPath(del.stage)) == Lookup(v.disk, ManifestPath(del.stage));
    ItemsThere(w, del);
  }

  lemma KeptIsExact(w: World, del: Deletion, v: World)
    requires Ready(w, del) && Pending(w, del, v)
    ensures AllExact(v.disk, ItemsOf(w.disk, del))
    ensures var items := ItemsOf(w.disk, del);
            forall i | 0 <= i < |items| :: Restored(PairOf(v.disk, items[i])).original == Lookup(w.disk, items[i].original)
  {
    hide ItemsOf, IsPlace, TrashRoot, ManifestPath, ValidManifest;
    ItemsThere(w, del);
  }

  /** Recovery of a pending deletion up to any step: it is still pending, or everything is as it was before the deletion. */
  lemma RecoverPending(w: World, del: Deletion, v: World, k: nat)
    requires Ready(w, del) && Pending(w, del, v) && k <= |RecoverStageOps(v, del.stage)|
    ensures RecoverStageSound(v, del.stage)
    ensures var ops := RecoverStageOps(v, del.stage);
            var u := Run(ops[..k], v);
            if k < |ops| then Pending(w, del, u) else u == w
  {
    hide Run, ItemsOf, IsPlace, TrashRoot, ManifestPath, ValidManifest, RecoverStageOps, LoadStage, Returning, SameBeyond, AllExact, Restored, RecoverStageSound, InTrash;
    var items := ItemsOf(w.disk, del);
    SealedLoads(w, del, v);
    KeptIsExact(w, del, v);
    RollbackKeepsAssets(v, del.stage, del.game, items, k);
    var ops := RecoverStageOps(v, del.stage);
    var u := Run(ops[..k], v);
    if k < |ops| {
      KeptReturns(w, del, v, u);
    } else {
      ItemsValid(w, del);
      ValidDistinct(del.stage, items);
      forall p: Path
        ensures Lookup(u.disk, p) == Lookup(w.disk, p)
      {
        StageInTrash(del.stage, p);
        if IsPlace(items, p) {
          PlaceOf(items, p);
        }
      }
      SameDisk(u.disk, w.disk);
    }
  }

  /** Recovery of a committed deletion up to any step. */
  lemma RecoverDoomed(w: World, del: Deletion, v: World, k: nat)
    requires Ready(w, del) && Doomed(w, del, v) && k <= |RecoverStageOps(v, del.stage)|
    ensures RecoverStageSound(v, del.stage)
    ensures var ops := RecoverStageOps(v, del.stage);
            var u := Run(ops[..k], v);
            if k < |ops| then Doomed(w, del, u) else Gone(w, del, u)
  {
    hide Run, ItemsOf, IsPlace, TrashRoot, ManifestPath, ValidManifest, LoadStage, Apply, Sealed, AllStaged, Gone;
    SealedLoads(w, del, v);
    RowGone(w, del);
    TrashRemoved(w, del, v);
    RunUpTo3(RecoverStageOps(v, del.stage)[..k], v);
  }

  lemma RowGone(w: World, del: Deletion)
    ensures del.game !in DeletedDb(w, del).games
  {
  }

  /** Recoveries one after another, each interrupted after some steps. */
  function AfterInterruptions(v: World, del: Deletion, steps: seq<nat>): World
    decreases |steps|
  {
    if steps == [] then v
    else AfterInterruptions(Executed(RecoverOps(v, Listing(v.disk, del)), v, steps[0]), del, steps[1..])
  }

  /** The states of a deletion that has been begun, as recoveries see them. */
  ghost predicate SameFate(w: World, del: Deletion, v: World, u: World) {
    || (v == w && u == w)
    || (Gone(w, del, v) && Gone(w, del, u))
    || (Unsealed(w, del, v) && u == v)
    || (Pending(w, del, v) && (Pending(w, del, u) || u == w))
    || (Doomed(w, del, v) && (Doomed(w, del, u) || Gone(w, del, u)))
  }

  lemma NothingListed(w: World, del: Deletion, v: World)
    requires Ready(w, del) && (v == w || Gone(w, del, v))
    ensures Listing(v.disk, del) == []
  {
    assert InTrash(TrashRoot(del.stage));
  }

  lemma UnsealedLoad(w: World, del: Deletion, v: World)
    requires Unsealed(w, del, v)
    ensures Listing(v.disk, del) == [del.stage] && RecoverStageOps(v, del.stage) == [] && !RecoverStageSound(v, del.stage)
  {
    hide TrashRoot, ManifestPath;
  }

  /** One recovery, interrupted after some steps or complete. */
  lemma RecoverOnce(w: World, del: Deletion, v: World, steps: int)
    requires Ready(w, del) && DeletionState(w, del, v)
    ensures var ops := RecoverOps(v, Listing(v.disk, del));
            var u := Executed(ops, v, steps);
            && SameFate(w, del, v, u)
            && (steps < 0 ==> v == w || Pending(w, del, v) ==> u == w)
            && (steps < 0 ==> Gone(w, del, v) || Doomed(w, del, v) ==> Gone(w, del, u))
    ensures RecoverSound(v, Listing(v.disk, del)) <==> !Unsealed(w, del, v)
  {
    hide Run, ItemsOf, IsPlace, TrashRoot, ManifestPath, LoadStage, Sealed, AllStaged, Gone, RecoverStageOps, RecoverStageSound, Kept, Unsealed, Pending, Doomed, Ready;
    var ops := RecoverOps(v, Listing(v.disk, del));
    OneStage(v, del.stage);
    StatesDiffer(w, del, v);
    if Unsealed(w, del, v) {
      UnsealedLoad(w, del, v);
      RanNone(v, steps);
    } else if Pending(w, del, v) {
      RecoverPending(w, del, v, Taken(steps, |RecoverStageOps(v, del.stage)|));
    } else if Doomed(w, del, v) {
      RecoverDoomed(w, del, v, Taken(steps, |RecoverStageOps(v, del.stage)|));
    } else {
      NothingListed(w, del, v);
      RanNone(v, steps);
    }
  }

  lemma StatesDiffer(w: World, del: Deletion, v: World)
    requires Ready(w, del)
    ensures Pending(w, del, v) || Doomed(w, del, v) ==> !Unsealed(w, del, v) && Listing(v.disk, del) == [del.stage] && v != w && !Gone(w, del, v)
    ensures Pending(w, del, v) ==> !Doomed(w, del, v)
    ensures v == w || Gone(w, del, v) ==> !Unsealed(w, del, v)
    ensures v == w ==> !Gone(w, del, v)
  {
    hide ItemsOf, IsPlace, ManifestPath;
    RowGone(w, del);
    assert InTrash(TrashRoot(del.stage));
  }

  /** A state with a known fate keeps it through any number of recoveries. */
  lemma {:induction false} FateIsKept(w: World, del: Deletion, v: World, interruptions: seq<nat>)
    requires Ready(w, del) && DeletionState(w, del, v)
    ensures var u := AfterInterruptions(v, del, interruptions);
            DeletionState(w, del, u) && SameFate(w, del, v, u)
    decreases |interruptions|
  {
    hide Run, Executed, RecoverOps, RecoverSound, Unsealed, Pending, Doomed, Gone, Ready, Listing;
    if interruptions != [] {
      var u := Executed(RecoverOps(v, Listing(v.disk, del)), v, interruptions[0]);
      RecoverOnce(w, del, v, interruptions[0]);
      FateIsKept(w, del, u, interruptions[1..]);
      var x := AfterInterruptions(v, del, interruptions);
      assert x == AfterInterruptions(u, del, interruptions[1..]);
      FatesCompose(w, del, v, u, x);
    }
  }

  lemma FatesCompose(w: World, del: Deletion, v: World, u: World, x: World)
    requires Ready(w, del) && SameFate(w, del, v, u) && SameFate(w, del, u, x)
    ensures SameFate(w, del, v, x)
  {
    hide Unsealed, Pending, Doomed, Gone, Ready, Listing;
    StatesDiffer(w, del, u);
    StatesDiffer(w, del, v);
  }

  /** From any state a deletion can leave, however many recoveries are cut short, one that completes puts everything back if the row is there and removes exactly the assets if it is not; it fails exactly when the stage never got its manifest, and then nothing was moved. */
  lemma RecoveryDecides(w: World, del: Deletion, v: World, interruptions: seq<nat>)
    requires Ready(w, del) && DeletionState(w, del, v)
    ensures var last := AfterInterruptions(v, del, interruptions);
            var final := Run(RecoverOps(last, Listing(last.disk, del)), last);
            && (del.game !in v.db.games ==> final == World(WithoutAssets(w.disk, del), DeletedDb(w, del)))
            && (del.game in v.db.games ==> final == if Unsealed(w, del, v) then v else w)
            && (RecoverSound(last, Listing(last.disk, del)) <==> !Unsealed(w, del, v))
  {
    hide Run, RecoverOps, RecoverSound, Unsealed, Listing;
    var last := AfterInterruptions(v, del, interruptions);
    var ops := RecoverOps(last, Listing(last.disk, del));
    assert ops[..|ops|] == ops;
    FateIsKept(w, del, v, interruptions);
    RecoverOnce(w, del, last, -1);
    FateOfRow(w, del, v);
    StatesDiffer(w, del, v);
    StatesDiffer(w, del, last);
  }

  lemma FateOfRow(w: World, del: Deletion, v: World)
    requires Ready(w, del) && DeletionState(w, del, v)
    ensures del.game in v.db.games <==> v == w || Unsealed(w, del, v) || Pending(w, del, v)
  {
    hide ItemsOf, IsPlace, ManifestPath, TrashRoot, Sealed, Kept, AllStaged, WithoutAssets;
    RowGone(w, del);
  }

  lemma WrongKindDoesNothing(w: World, del: Deletion)
    ensures !KindsMatch(w.disk, del) ==> DeletionOps(w, del) == []
  {
  }

  /** A crash of the deletion at any step, then any number of interrupted recoveries, then one that completes. */
  lemma DeletionSurvives(w: World, del: Deletion, k: nat, interruptions: seq<nat>)
    requires Ready(w, del) && k <= |DeletionOps(w, del)|
    ensures var crashed := Run(DeletionOps(w, del)[..k], w);
            var last := AfterInterruptions(crashed, del, interruptions);
            var final := Run(RecoverOps(last, Listing(last.disk, del)), last);
            && (del.game !in crashed.db.games ==> final == World(WithoutAssets(w.disk, del), DeletedDb(w, del)))
            && (del.game in crashed.db.games ==> final == if Unsealed(w, del, crashed) then crashed else w)
            && (RecoverSound(last, Listing(last.disk, del)) <==> !Unsealed(w, del, crashed))
    ensures Unsealed(w, del, Run(DeletionOps(w, del)[..k], w)) <==> ItemsOf(w.disk, del) != [] && 1 <= k <= 2
  {
    hide Run, RecoverOps, RecoverSound, Unsealed, Listing, ItemsOf, DeletionOps, Pending, Doomed, Gone, Ready;
    var crashed := Run(DeletionOps(w, del)[..k], w);
    CrashedDeletionState(w, del, k);
    WrongKindDoesNothing(w, del);
    StatesDiffer(w, del, crashed);
    RecoveryDecides(w, del, crashed, interruptions);
  }
}
