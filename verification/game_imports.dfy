/** Importing a game package: its steps in order, and what a crash at any of them leaves after recovery. */
module GameImports {
  import opened Wrappers
  import opened Storage
  import opened ImportSwaps
  import opened ImportRecovery
  import opened Text

  /** A package to install: cover and bundle wait in the import workspace; others are the asset rows of all other games. */
  datatype Import = Import(slug: string, game: string, token: string, stage: string, cover: Path, bundle: Option<Path>, shown: CoverUrl,
                           replace: bool, others: seq<Path>)

  function CoverItem(imp: Import): SwapItem {
    SwapItem(["covers", imp.slug], StageRoot(imp.stage) + ["backup", "cover"], Some(StageRoot(imp.stage) + ["new", "cover"]))
  }

  function BundleItem(imp: Import): SwapItem {
    SwapItem(["playables", imp.slug], StageRoot(imp.stage) + ["backup", "bundle"],
             if imp.bundle.Some? then Some(StageRoot(imp.stage) + ["new", "bundle"]) else None)
  }

  /** The cover in a directory of its own. */
  function NewCover(disk: Disk, imp: Import): Option<Entry> {
    if imp.cover in disk then Some(Housed(disk[imp.cover])) else None
  }

  function CoverSlot(disk: Disk, imp: Import): Slot {
    Slot(CoverItem(imp), Lookup(disk, ["covers", imp.slug]), NewCover(disk, imp))
  }

  function BundleSlot(disk: Disk, imp: Import): Slot {
    Slot(BundleItem(imp), Lookup(disk, ["playables", imp.slug]),
         if imp.bundle.Some? then Lookup(disk, imp.bundle.value) else None)
  }

  function Slots(disk: Disk, imp: Import): seq<Slot> {
    [CoverSlot(disk, imp), BundleSlot(disk, imp)]
  }

  function Manifest(imp: Import): Entry {
    ImportManifest(imp.token, imp.slug, [CoverItem(imp), BundleItem(imp)])
  }

  function TemporaryPath(stage: string): Path {
    StageRoot(stage) + ["install.json.tmp"]
  }

  // --- The steps -----------------------------------------------------------------------

  /** Another game has a row for a path, or for one below it as the database compares patterns. */
  predicate Shared(others: seq<Path>, p: Path) {
    exists i | 0 <= i < |others| :: others[i] == p || StartsLike(Joined(others[i]), Joined(p) + "/")
  }

  /** The package is refused before anything is touched. */
  predicate Refused(w: World, imp: Import) {
    || (imp.game in w.db.games && !imp.replace)
    || !InWorkspace(imp.cover)
    || (imp.bundle.Some? && !InWorkspace(imp.bundle.value))
    || Shared(imp.others, ["covers", imp.slug]) || Shared(imp.others, ["playables", imp.slug])
  }

  /** The last segment has an extension. */
  predicate HasExtension(p: Path) {
    p != [] && '.' in p[|p| - 1]
  }

  predicate CoverUsable(disk: Disk, imp: Import) {
    IsFile(disk, imp.cover) && HasExtension(imp.cover)
  }

  /** The cover is a file with an extension, and the bundle a directory. */
  predicate Complete(disk: Disk, imp: Import) {
    CoverUsable(disk, imp) && (imp.bundle.Some? ==> IsDirectory(disk, imp.bundle.value))
  }

  /** Gathering the new trees in a fresh stage. */
  function GatherOps(w: World, imp: Import): seq<Op> {
    [Write(StageRoot(imp.stage), Folder)]
    + (if CoverUsable(w.disk, imp) then [MoveInto(imp.cover, CoverItem(imp).incoming.value)] else [])
    + (if imp.bundle.Some? && Complete(w.disk, imp) then [Move(imp.bundle.value, BundleItem(imp).incoming.value)] else [])
  }

  /** The manifest is written beside its place and moved there. */
  function SealOps(imp: Import): seq<Op> {
    [Write(TemporaryPath(imp.stage), Manifest(imp)), Move(TemporaryPath(imp.stage), ManifestPath(imp.stage))]
  }

  function PrepareOps(w: World, imp: Import): seq<Op> {
    GatherOps(w, imp) + if Complete(w.disk, imp) then SealOps(imp) else [RemoveAll(StageRoot(imp.stage))]
  }

  function CommitOps(imp: Import): seq<Op> {
    [CommitPackage(imp.game, imp.token, imp.shown), RemoveAll(StageRoot(imp.stage))]
  }

  function ImportOps(w: World, imp: Import): seq<Op> {
    if Refused(w, imp) then []
    else if !Complete(w.disk, imp) then PrepareOps(w, imp)
    else
      var prepared := Run(PrepareOps(w, imp), w);
      PrepareOps(w, imp) + (ActivateOps(prepared, ItemsOf(Slots(w.disk, imp))) + CommitOps(imp))
  }

  /** The row of the game, with the receipt of its package. */
  function InstalledDb(db: Database, imp: Import): Database {
    db.(games := db.games + {imp.game}, packages := db.packages[imp.game := imp.token], covers := db.covers[imp.game := imp.shown])
  }

  // --- What is assumed before the import -----------------------------------------------

  /** No stage is left over, the stage's name and the token are fresh, and the trees to replace are whole entries. */
  ghost predicate Ready(w: World, imp: Import) {
    && SafeBundleName(imp.slug) && SafeSegment(imp.stage) && Trim(imp.token) != ""
    && (forall s: string :: ManifestPath(s) !in w.disk)
    && (forall p | p in w.disk :: !(StageRoot(imp.stage) <= p))
    && (forall p | p in w.disk && (["covers", imp.slug] <= p || ["playables", imp.slug] <= p) :: |p| == 2)
    && !Committed(w, imp.token)
  }

  // --- What is left in the end ---------------------------------------------------------

  /** The disk without the import workspace. */
  function Published(disk: Disk): Disk {
    map p | p in disk && !InWorkspace(p) :: disk[p]
  }

  /** The published disk with the trees of the package in place of the old ones. */
  function WithPackage(disk: Disk, imp: Import): Disk
    requires Complete(disk, imp)
  {
    var covered := Published(disk)[["covers", imp.slug] := Housed(disk[imp.cover])];
    if imp.bundle.Some? then covered[["playables", imp.slug] := disk[imp.bundle.value]]
    else covered - {["playables", imp.slug]}
  }

  // --- Steps before the manifest is in place -------------------------------------------

  predicate IsManifest(p: Path) {
    |p| == 3 && p[2] == "install.json"
  }

  /** A step inside the workspace that puts no manifest in place. */
  predicate Quiet(op: Op) {
    match op
    case Write(path, _) => InWorkspace(path) && !IsManifest(path)
    case Move(source, destination) => InWorkspace(source) && InWorkspace(destination) && !IsManifest(destination)
    case MoveInto(file, directory) => InWorkspace(file) && InWorkspace(directory) && !IsManifest(directory)
    case RemoveAll(root) => InWorkspace(root)
    case _ => false
  }

  ghost predicate NoManifest(disk: Disk) {
    forall p | p in disk && InWorkspace(p) :: !IsManifest(p)
  }

  lemma QuietStep(op: Op, w: World)
    requires Quiet(op) && NoManifest(w.disk)
    ensures var v := Apply(op, w); NoManifest(v.disk) && SameOutside(w.disk, v.disk) && v.db == w.db
  {
    var v := Apply(op, w);
    if op.RemoveAll? {
      assert forall p: Path | op.root <= p :: p[0] == op.root[0];
    }
  }

  lemma {:induction false} QuietRun(ops: seq<Op>, w: World)
    requires NoManifest(w.disk) && forall i | 0 <= i < |ops| :: Quiet(ops[i])
    ensures var v := Run(ops, w); NoManifest(v.disk) && SameOutside(w.disk, v.disk) && v.db == w.db
  {
    hide Apply, Quiet, NoManifest, SameOutside;
    SameOutsideJoin(w.disk, w.disk, w.disk);
    if ops != [] {
      var v := Apply(ops[0], w);
      QuietStep(ops[0], w);
      QuietRun(ops[1..], v);
      SameOutsideJoin(w.disk, v.disk, Run(ops[1..], v).disk);
    }
  }

  lemma ManifestNames(w: World, imp: Import)
    requires Ready(w, imp)
    ensures NoManifest(w.disk)
  {
    forall p | p in w.disk && InWorkspace(p)
      ensures !IsManifest(p)
    {
      ManifestShape(p);
    }
  }

  lemma ManifestShape(p: Path)
    ensures InWorkspace(p) && IsManifest(p) ==> p == ManifestPath(p[1])
  {
  }

  lemma NoManifestSweeps(w: World)
    requires NoManifest(w.disk)
    ensures Sweepable(w)
  {
    forall s: string
      ensures ManifestPath(s) !in w.disk
    {
      assert IsManifest(ManifestPath(s)) && InWorkspace(ManifestPath(s));
    }
  }

  lemma {:induction false} GatherIsQuiet(w: World, imp: Import)
    requires !Refused(w, imp)
    ensures forall i | 0 <= i < |GatherOps(w, imp)| :: Quiet(GatherOps(w, imp)[i])
    ensures Quiet(SealOps(imp)[0]) && Quiet(RemoveAll(StageRoot(imp.stage)))
  {
    assert |"install.json.tmp"| != |"install.json"|;
  }

  /** Up to the last step of the preparation nothing outside the workspace has changed and no manifest is in place. */
  lemma PrepareIsQuiet(w: World, imp: Import, k: nat)
    requires Ready(w, imp) && !Refused(w, imp)
    requires k < |PrepareOps(w, imp)| || (k == |PrepareOps(w, imp)| && !Complete(w.disk, imp))
    ensures var v := Run(PrepareOps(w, imp)[..k], w); NoManifest(v.disk) && SameOutside(w.disk, v.disk) && v.db == w.db
  {
    hide Run, Quiet, Ready, NoManifest, SameOutside, GatherOps, Refused;
    ManifestNames(w, imp);
    GatherIsQuiet(w, imp);
    var ops := PrepareOps(w, imp)[..k];
    forall i | 0 <= i < |ops|
      ensures Quiet(ops[i])
    {
      if i >= |GatherOps(w, imp)| {
        assert i == |GatherOps(w, imp)|;
      }
    }
    QuietRun(ops, w);
  }

  // --- The stage once it is prepared ---------------------------------------------------

  /** What preparation leaves at a path. */
  function PreparedAt(disk: Disk, imp: Import, p: Path): Option<Entry> {
    if p == StageRoot(imp.stage) then Some(Folder)
    else if Some(p) == CoverItem(imp).incoming then NewCover(disk, imp)
    else if Some(p) == BundleItem(imp).incoming then BundleSlot(disk, imp).arriving
    else if p == ManifestPath(imp.stage) then Some(Manifest(imp))
    else if p == imp.cover || Some(p) == imp.bundle then None
    else Lookup(disk, p)
  }

  lemma PathsDiffer(imp: Import)
    ensures var root := StageRoot(imp.stage);
            var cover, bundle := root + ["new", "cover"], root + ["new", "bundle"];
            var manifest, temporary := ManifestPath(imp.stage), TemporaryPath(imp.stage);
            && cover != bundle && |cover| == |bundle| == 4 && |manifest| == |temporary| == 3 && |root| == 2
            && manifest != temporary
            && root <= cover && root <= bundle && root <= manifest && root <= temporary
  {
    var root := StageRoot(imp.stage);
    assert (root + ["new", "cover"])[3] == "cover" && (root + ["new", "bundle"])[3] == "bundle" && |"cover"| != |"bundle"|;
    assert ManifestPath(imp.stage)[2] == "install.json" && TemporaryPath(imp.stage)[2] == "install.json.tmp";
    assert |"install.json"| != |"install.json.tmp"|;
  }

  lemma Gathered(w: World, imp: Import, p: Path)
    requires Complete(w.disk, imp) && forall q | q in w.disk :: !(StageRoot(imp.stage) <= q)
    ensures Lookup(Run(GatherOps(w, imp), w).disk, p)
         == if p == ManifestPath(imp.stage) then None else PreparedAt(w.disk, imp, p)
  {
    PathsDiffer(imp);
    RunUpTo3(GatherOps(w, imp), w);
  }

  lemma Sealed(v: World, imp: Import, p: Path)
    requires TemporaryPath(imp.stage) !in v.disk
    ensures var after := Run(SealOps(imp), v);
            && after.db == v.db
            && Lookup(after.disk, p) == if p == ManifestPath(imp.stage) then Some(Manifest(imp)) else Lookup(v.disk, p)
  {
    PathsDiffer(imp);
    RunUpTo3(SealOps(imp), v);
  }

  lemma PreparedWorld(w: World, imp: Import)
    requires Ready(w, imp) && Complete(w.disk, imp) && !Refused(w, imp)
    ensures var v := Run(PrepareOps(w, imp), w);
            && v.db == w.db
            && forall p: Path :: Lookup(v.disk, p) == PreparedAt(w.disk, imp, p)
  {
    hide Run, GatherOps, SealOps, PreparedAt, Lookup;
    var g := Run(GatherOps(w, imp), w);
    RunConcat(GatherOps(w, imp), SealOps(imp), w);
    Sealable(w, imp);
    forall p: Path
      ensures Lookup(Run(SealOps(imp), g).disk, p) == PreparedAt(w.disk, imp, p)
    {
      Gathered(w, imp, p);
      Sealed(g, imp, p);
      PreparedManifest(w.disk, imp);
    }
    Sealed(g, imp, []);
    GatherKeepsRows(w, imp);
  }

  lemma PreparedManifest(disk: Disk, imp: Import)
    ensures Complete(disk, imp) && (forall q | q in disk :: !(StageRoot(imp.stage) <= q))
      ==> PreparedAt(disk, imp, ManifestPath(imp.stage)) == Some(Manifest(imp))
  {
    PathsDiffer(imp);
  }

  lemma Sealable(w: World, imp: Import)
    requires Ready(w, imp) && Complete(w.disk, imp)
    ensures TemporaryPath(imp.stage) !in Run(GatherOps(w, imp), w).disk
  {
    hide Run, GatherOps;
    PathsDiffer(imp);
    Gathered(w, imp, TemporaryPath(imp.stage));
  }

  lemma GatherKeepsRows(w: World, imp: Import)
    requires Ready(w, imp) && !Refused(w, imp)
    ensures Run(GatherOps(w, imp), w).db == w.db
  {
    hide Run, Quiet, Ready, NoManifest, SameOutside, GatherOps, Refused;
    ManifestNames(w, imp);
    GatherIsQuiet(w, imp);
    QuietRun(GatherOps(w, imp), w);
  }

  /** The paths of the two swaps of an import. */
  lemma SlotsPlaced(disk: Disk, imp: Import)
    requires Complete(disk, imp)
    ensures AllPlaced(imp.stage, Slots(disk, imp)) && Disjoint(Slots(disk, imp))
  {
    var root := StageRoot(imp.stage);
    assert (root + ["new", "cover"])[3] == "cover" && (root + ["new", "bundle"])[3] == "bundle" && |"cover"| != |"bundle"|;
    assert (root + ["backup", "cover"])[3] == "cover" && (root + ["backup", "bundle"])[3] == "bundle";
    assert (root + ["backup", "cover"])[2] == "backup" && (root + ["backup", "bundle"])[2] == "backup" && |"new"| != |"backup"|;
    assert (root + ["new", "cover"])[2] == "new" && (root + ["new", "bundle"])[2] == "new";
    assert |"covers"| != |IMPORTS| && |"playables"| != |IMPORTS| && |"covers"| != |"playables"|;
    assert ["covers", imp.slug][0] == "covers" && ["playables", imp.slug][0] == "playables";
  }

  lemma SpotShapes(disk: Disk, imp: Import, p: Path)
    ensures IsSpot(Slots(disk, imp), p) <==>
      || p == ["covers", imp.slug] || p == ["playables", imp.slug]
      || p == StageRoot(imp.stage) + ["backup", "cover"] || p == StageRoot(imp.stage) + ["backup", "bundle"]
      || Some(p) == CoverItem(imp).incoming || Some(p) == BundleItem(imp).incoming
  {
    var slots := Slots(disk, imp);
    assert slots[0].item == CoverItem(imp) && slots[1].item == BundleItem(imp);
  }

  lemma SpotForm(disk: Disk, imp: Import, p: Path)
    requires IsSpot(Slots(disk, imp), p)
    ensures if InWorkspace(p) then |p| == 4 && StageRoot(imp.stage) <= p
            else |p| == 2 && (p == ["covers", imp.slug] || p == ["playables", imp.slug])
  {
    hide IsSpot, Slots;
    SpotShapes(disk, imp, p);
    assert |"covers"| != |IMPORTS| && |"playables"| != |IMPORTS|;
  }

  lemma PreparedForm(w: World, v: World, imp: Import, p: Path)
    requires p in v.disk && Lookup(v.disk, p) == PreparedAt(w.disk, imp, p)
    ensures IsSpot(Slots(w.disk, imp), p) || p == StageRoot(imp.stage) || p == ManifestPath(imp.stage) || p in w.disk
  {
    hide IsSpot, Slots;
    SpotShapes(w.disk, imp, p);
  }

  lemma PrefixInWorkspace(q: Path, p: Path)
    requires |q| > 0 && q <= p
    ensures InWorkspace(q) <==> InWorkspace(p)
    ensures |q| == |p| ==> q == p
    ensures |q| <= |p|
  {
    assert q[0] == p[0];
    assert |q| == |p| ==> p[..|q|] == p;
  }

  /** Every spot is a whole entry in the prepared stage. */
  lemma PreparedLeaves(w: World, v: World, imp: Import)
    requires Ready(w, imp) && Complete(w.disk, imp)
    requires forall p: Path :: Lookup(v.disk, p) == PreparedAt(w.disk, imp, p)
    ensures Leaves(v.disk, Slots(w.disk, imp))
  {
    hide IsSpot, Slots, PreparedAt, InWorkspace, Lookup, ManifestPath, StageRoot, Complete;
    var slots := Slots(w.disk, imp);
    forall p: Path, q: Path | IsSpot(slots, q) && (p in v.disk || IsSpot(slots, p)) && q <= p
      ensures p == q
    {
      SpotForm(w.disk, imp, q);
      PrefixInWorkspace(q, p);
      if IsSpot(slots, p) {
        SpotForm(w.disk, imp, p);
      } else {
        PreparedForm(w, v, imp, p);
        StagePaths(imp);
        if p in w.disk {
          PrefixTransitive(StageRoot(imp.stage), q, p);
        }
      }
    }
  }

  lemma StagePaths(imp: Import)
    ensures |StageRoot(imp.stage)| == 2 && |ManifestPath(imp.stage)| == 3
    ensures InWorkspace(StageRoot(imp.stage)) && InWorkspace(ManifestPath(imp.stage))
  {
  }

  lemma PrefixTransitive(a: Path, b: Path, c: Path)
    requires b <= c
    ensures a <= b ==> a <= c
  {
  }

  /** The prepared stage is pending, with every swap waiting. */
  lemma PreparedPending(w: World, imp: Import)
    requires Ready(w, imp) && Complete(w.disk, imp) && !Refused(w, imp)
    ensures var v := Run(PrepareOps(w, imp), w);
            var slots := Slots(w.disk, imp);
            && v.db == w.db && AllWaiting(v.disk, slots) && Pending(v, imp.stage, slots, imp.token)
            && SameButTargets(w.disk, v.disk, slots)
  {
    hide Run, PrepareOps, Slots, IsSpot, StageRoot, Leaves, Disjoint, AllPlaced, PreparedAt, Lookup, Committed;
    var v := Run(PrepareOps(w, imp), w);
    var slots := Slots(w.disk, imp);
    PreparedWorld(w, imp);
    SlotsPlaced(w.disk, imp);
    PreparedLeaves(w, v, imp);
    PreparedSpots(w, v, imp);
    PreparedManifests(w, v, imp);
    SameCommitted(w, v, imp.token);
    WaitingActivates(v.disk, v.disk, slots);
    ActivatingLegal(v.disk, slots);
  }

  lemma ActivatingLegal(disk: Disk, slots: seq<Slot>)
    requires AllActivating(disk, slots)
    ensures AllLegal(disk, slots)
  {
  }

  lemma PreparedSpots(w: World, v: World, imp: Import)
    requires Ready(w, imp) && Complete(w.disk, imp) && !Refused(w, imp)
    requires forall p: Path :: Lookup(v.disk, p) == PreparedAt(w.disk, imp, p)
    ensures AllWaiting(v.disk, Slots(w.disk, imp)) && SameButTargets(w.disk, v.disk, Slots(w.disk, imp))
  {
    hide IsSpot, Slots, PreparedAt, Lookup, InWorkspace, Complete, Ready, Refused, SpotsOf;
    SlotsAre(w.disk, imp);
    PreparedCover(w, v, imp);
    PreparedBundle(w, v, imp);
    forall p: Path | !InWorkspace(p)
      ensures Lookup(v.disk, p) == Lookup(w.disk, p)
    {
      PreparedOutside(w, v, imp, p);
    }
  }

  lemma PreparedOutside(w: World, v: World, imp: Import, p: Path)
    requires Ready(w, imp) && Complete(w.disk, imp) && !Refused(w, imp) && !InWorkspace(p)
    requires Lookup(v.disk, p) == PreparedAt(w.disk, imp, p)
    ensures Lookup(v.disk, p) == Lookup(w.disk, p)
  {
    hide Lookup, InWorkspace, Complete, Ready;
    SourcesInside(w, imp);
    WorkspacePaths(imp, p);
  }

  lemma PreparedCover(w: World, v: World, imp: Import)
    requires Ready(w, imp) && Complete(w.disk, imp) && !Refused(w, imp)
    requires forall p: Path :: Lookup(v.disk, p) == PreparedAt(w.disk, imp, p)
    ensures SpotsOf(v.disk, CoverItem(imp)) == Waiting(CoverSlot(w.disk, imp))
  {
    hide Lookup, InWorkspace, Complete, Ready, Refused;
    PathsDiffer(imp);
    BackupsFree(imp);
    FreshPaths(w, imp);
    SourcesInside(w, imp);
    WorkspacePaths(imp, ["covers", imp.slug]);
  }

  lemma PreparedBundle(w: World, v: World, imp: Import)
    requires Ready(w, imp) && Complete(w.disk, imp) && !Refused(w, imp)
    requires forall p: Path :: Lookup(v.disk, p) == PreparedAt(w.disk, imp, p)
    ensures SpotsOf(v.disk, BundleItem(imp)) == Waiting(BundleSlot(w.disk, imp))
  {
    hide Lookup, InWorkspace, Complete, Ready, Refused;
    PathsDiffer(imp);
    BackupsFree(imp);
    FreshPaths(w, imp);
    SourcesInside(w, imp);
    WorkspacePaths(imp, ["playables", imp.slug]);
  }

  lemma FreshPaths(w: World, imp: Import)
    requires Ready(w, imp)
    ensures forall p: Path | StageRoot(imp.stage) <= p :: Lookup(w.disk, p) == None
  {
    NothingFresh(w.disk, imp);
  }

  lemma SlotsAre(disk: Disk, imp: Import)
    ensures Slots(disk, imp) == [CoverSlot(disk, imp), BundleSlot(disk, imp)]
  {
  }

  lemma BackupsFree(imp: Import)
    ensures var root := StageRoot(imp.stage);
            var cover, bundle := root + ["backup", "cover"], root + ["backup", "bundle"];
            && |cover| == |bundle| == 4 && root <= cover && root <= bundle
            && (forall x: string :: cover != root + ["new", x] && bundle != root + ["new", x])
            && !InWorkspace(["covers", imp.slug]) && !InWorkspace(["playables", imp.slug])
  {
    var root := StageRoot(imp.stage);
    assert (root + ["backup", "cover"])[2] == "backup" && (root + ["backup", "bundle"])[2] == "backup" && |"new"| != |"backup"|;
    assert forall x: string :: (root + ["new", x])[2] == "new";
    assert |"covers"| != |IMPORTS| && |"playables"| != |IMPORTS|;
  }

  lemma NothingFresh(disk: Disk, imp: Import)
    requires forall p | p in disk :: !(StageRoot(imp.stage) <= p)
    ensures forall p: Path | StageRoot(imp.stage) <= p :: Lookup(disk, p) == None
  {
  }

  lemma SourcesInside(w: World, imp: Import)
    requires Ready(w, imp) && Complete(w.disk, imp) && !Refused(w, imp)
    ensures InWorkspace(imp.cover) && !(StageRoot(imp.stage) <= imp.cover)
    ensures imp.bundle.Some? ==> InWorkspace(imp.bundle.value) && !(StageRoot(imp.stage) <= imp.bundle.value)
  {
  }

  lemma WorkspacePaths(imp: Import, p: Path)
    requires !InWorkspace(p)
    ensures p != StageRoot(imp.stage) && p != ManifestPath(imp.stage)
    ensures Some(p) != CoverItem(imp).incoming && Some(p) != BundleItem(imp).incoming
  {
  }

  /** The manifest of an import is one that loads. */
  lemma ManifestIsValid(imp: Import)
    requires SafeBundleName(imp.slug) && SafeSegment(imp.stage) && Trim(imp.token) != ""
    ensures ValidManifest(imp.stage, imp.token, imp.slug, [CoverItem(imp), BundleItem(imp)])
  {
    hide Trim, SafeBundleName;
    SlugIsSegment(imp.slug);
    assert |".atri-imports"| == 13 && |"backup"| == 6 && |"new"| == 3 && |"cover"| == 5 && |"bundle"| == 6 && |"covers"| == 6 && |"playables"| == 9;
  }

  lemma SlugIsSegment(slug: string)
    ensures SafeBundleName(slug) ==> SafeSegment(slug)
  {
  }

  lemma ManifestLoads(disk: Disk, imp: Import)
    requires SafeBundleName(imp.slug) && SafeSegment(imp.stage) && Trim(imp.token) != ""
    requires Lookup(disk, ManifestPath(imp.stage)) == Some(Manifest(imp))
    ensures LoadManifest(disk, imp.stage) == Loaded(imp.token, [CoverItem(imp), BundleItem(imp)])
  {
    hide ValidManifest, ManifestPath, CoverItem, BundleItem, SafeBundleName, SafeSegment, Trim;
    ManifestIsValid(imp);
  }

  lemma ReadyNames(w: World, imp: Import)
    requires Ready(w, imp)
    ensures SafeBundleName(imp.slug) && SafeSegment(imp.stage) && Trim(imp.token) != ""
  {
  }

  lemma PreparedManifests(w: World, v: World, imp: Import)
    requires Ready(w, imp) && Complete(w.disk, imp) && !Refused(w, imp)
    requires forall p: Path :: Lookup(v.disk, p) == PreparedAt(w.disk, imp, p)
    ensures var slots := Slots(w.disk, imp);
            && LoadManifest(v.disk, imp.stage) == Loaded(imp.token, ItemsOf(slots))
            && !IsSpot(slots, ManifestPath(imp.stage))
            && forall s: string | s != imp.stage :: ManifestPath(s) !in v.disk
  {
    hide Slots, IsSpot, Complete, Refused, Ready, PreparedAt, ManifestPath, StageRoot, LoadManifest, ItemsOf;
    ReadyNames(w, imp);
    FreshStage(w, imp);
    PreparedManifest(w.disk, imp);
    ManifestLoads(v.disk, imp);
    ItemsAre(w.disk, imp);
    StagePaths(imp);
    if IsSpot(Slots(w.disk, imp), ManifestPath(imp.stage)) {
      SpotForm(w.disk, imp, ManifestPath(imp.stage));
    }
    forall s: string | s != imp.stage
      ensures ManifestPath(s) !in v.disk
    {
      OtherManifest(w, imp, s);
    }
  }

  lemma FreshStage(w: World, imp: Import)
    requires Ready(w, imp)
    ensures forall q | q in w.disk :: !(StageRoot(imp.stage) <= q)
  {
  }

  lemma OtherManifest(w: World, imp: Import, s: string)
    requires Ready(w, imp) && s != imp.stage
    ensures PreparedAt(w.disk, imp, ManifestPath(s)) == None
  {
    hide StageRoot, ManifestPath, SafeBundleName, SafeSegment, Trim, NewCover, Manifest, BundleSlot, Committed;
    ManifestsApart(imp.stage, s);
    UnderStage(imp);
  }

  lemma ManifestsApart(stage: string, other: string)
    requires other != stage
    ensures !(StageRoot(stage) <= ManifestPath(other))
  {
    hide StageRoot;
    StageInWorkspace(other, ManifestPath(other));
    if StageRoot(stage) <= ManifestPath(other) {
      StageInWorkspace(stage, ManifestPath(other));
    }
  }

  lemma UnderStage(imp: Import)
    ensures StageRoot(imp.stage) <= StageRoot(imp.stage) && StageRoot(imp.stage) <= ManifestPath(imp.stage)
    ensures StageRoot(imp.stage) <= CoverItem(imp).incoming.value
    ensures imp.bundle.Some? ==> StageRoot(imp.stage) <= BundleItem(imp).incoming.value
    ensures BundleItem(imp).incoming.Some? <==> imp.bundle.Some?
  {
  }

  lemma ItemsAre(disk: Disk, imp: Import)
    ensures ItemsOf(Slots(disk, imp)) == [CoverItem(imp), BundleItem(imp)]
  {
    var items := ItemsOf(Slots(disk, imp));
    assert items[0] == CoverItem(imp) && items[1] == BundleItem(imp);
  }

  // --- A crash at any step -------------------------------------------------------------

  lemma ActivatingGoals(stage: string, disk: Disk, slots: seq<Slot>)
    requires AllActivating(disk, slots) && AllPlaced(stage, slots)
    ensures forall i | 0 <= i < |slots| :: GoalOf(disk, slots[i]).target == slots[i].previous
  {
    hide PathsOf;
    forall i | 0 <= i < |slots|
      ensures GoalOf(disk, slots[i]).target == slots[i].previous
    {
      ActivatingGoal(stage, disk, slots[i]);
    }
  }

  lemma ActivatingGoal(stage: string, disk: Disk, slot: Slot)
    requires Activating(disk, slot) && WellPlaced(stage, slot)
    ensures GoalOf(disk, slot).target == slot.previous && !Mistakable(disk, slot)
  {
  }

  /** The tree found at a target before the import, and the one installed there. */
  predicate TargetsHold(disk: Disk, slots: seq<Slot>, installed: bool) {
    forall i | 0 <= i < |slots| :: Lookup(disk, slots[i].item.target) == if installed then slots[i].arriving else slots[i].previous
  }

  /** During activation the stage stays pending and nothing but the targets has changed outside the workspace. */
  lemma DuringActivation(w: World, imp: Import, k: nat)
    requires Ready(w, imp) && Complete(w.disk, imp) && !Refused(w, imp)
    requires var v := Run(PrepareOps(w, imp), w); k <= |ActivateOps(v, ItemsOf(Slots(w.disk, imp)))|
    ensures var v := Run(PrepareOps(w, imp), w);
            var slots := Slots(w.disk, imp);
            var ops := ActivateOps(v, ItemsOf(slots));
            var c := Run(ops[..k], v);
            && c.db == w.db && Pending(c, imp.stage, slots, imp.token) && SameButTargets(w.disk, c.disk, slots)
            && AllActivating(c.disk, slots) && AllPlaced(imp.stage, slots)
            && (k == |ops| ==> TargetsHold(c.disk, slots, true) && AllInstalled(c.disk, slots))
            && Recorded(v, ItemsOf(slots), k) == InferAll(c.disk, ItemsOf(slots))
  {
    hide Run, PrepareOps, Slots, IsSpot, StageRoot, Leaves, Disjoint, AllPlaced, AllWaiting, AllActivating, ActivateOps, Recorded, InferAll, Pending, SameElsewhere, Refused, Ready, Complete, SameButTargets, TargetsHold, AllInstalled, AllLegal, ItemsOf;
    var v := Run(PrepareOps(w, imp), w);
    var slots := Slots(w.disk, imp);
    var ops := ActivateOps(v, ItemsOf(slots));
    var c := Run(ops[..k], v);
    PreparedPending(w, imp);
    SlotsPlaced(w.disk, imp);
    ActivatePrefix(v, imp.stage, slots, k);
    ActivatingLegal(c.disk, slots);
    StillPending(v, c, imp.stage, slots, imp.token);
    SameButTargetsJoin(w.disk, v.disk, c.disk, slots);
    InstalledTargets(c.disk, slots);
  }

  lemma InstalledTargets(disk: Disk, slots: seq<Slot>)
    ensures AllInstalled(disk, slots) ==> TargetsHold(disk, slots, true)
  {
  }

  /** After the commit the stage only waits to be removed. */
  lemma AfterCommit(c: World, imp: Import, slots: seq<Slot>, k: nat)
    requires Pending(c, imp.stage, slots, imp.token) && 1 <= k <= 2
    ensures var after := Run(CommitOps(imp)[..k], c);
            && Sweepable(after) && SameOutside(c.disk, after.disk) && Committed(after, imp.token)
            && after.db == InstalledDb(c.db, imp)
  {
    hide Undoable, StageRoot, IsSpot, SameOutside, ManifestPath, ItemsOf;
    var v := Apply(CommitPackage(imp.game, imp.token, imp.shown), c);
    RunUpTo3(CommitOps(imp)[..k], c);
    assert v.db.packages[imp.game] == imp.token;
    SameOutsideJoin(c.disk, c.disk, c.disk);
    assert Sweepable(v);
    RemoveStageKeeps(v, imp.stage, [imp.stage]);
    RemoveStage(v, imp.stage);
  }

  /** A disk with the old trees, or the new ones, and no workspace. */
  lemma FinalDisk(a: Disk, b: Disk, imp: Import, installed: bool)
    requires installed ==> Complete(a, imp)
    requires forall p | p in b :: !InWorkspace(p)
    requires SameButTargets(a, b, Slots(a, imp)) && TargetsHold(b, Slots(a, imp), installed)
    ensures b == if installed then WithPackage(a, imp) else Published(a)
  {
    hide IsSpot, StageRoot;
    var c := if installed then WithPackage(a, imp) else Published(a);
    var slots := Slots(a, imp);
    assert slots[0].item == CoverItem(imp) && slots[1].item == BundleItem(imp);
    BackupsFree(imp);
    forall p: Path
      ensures Lookup(b, p) == Lookup(c, p)
    {
      if p != ["covers", imp.slug] && p != ["playables", imp.slug] && !InWorkspace(p) {
        FinalPath(a, imp, p);
      }
      assert |"covers"| != |"playables"| && ["covers", imp.slug][0] == "covers" && ["playables", imp.slug][0] == "playables";
      assert p in b ==> !InWorkspace(p);
    }
    SameDisk(b, c);
  }

  lemma FinalPath(disk: Disk, imp: Import, p: Path)
    requires p != ["covers", imp.slug] && p != ["playables", imp.slug] && !InWorkspace(p)
    ensures !IsSpot(Slots(disk, imp), p)
  {
    if IsSpot(Slots(disk, imp), p) {
      SpotForm(disk, imp, p);
    }
  }

  /** The state a crash leaves, in the terms recovery distinguishes. */
  ghost predicate CrashState(w: World, imp: Import, c: World) {
    var slots := Slots(w.disk, imp);
    || (Sweepable(c) && SameOutside(w.disk, c.disk) && c.db == w.db)
    || (Complete(w.disk, imp) && Pending(c, imp.stage, slots, imp.token) && SameButTargets(w.disk, c.disk, slots) && c.db == w.db
        && AllPlaced(imp.stage, slots) && AllActivating(c.disk, slots))
    || (Complete(w.disk, imp) && Sweepable(c) && SameButTargets(w.disk, c.disk, slots) && TargetsHold(c.disk, slots, true)
        && c.db == InstalledDb(w.db, imp) && Committed(c, imp.token))
  }

  lemma CrashStates(w: World, imp: Import, k: nat)
    requires Ready(w, imp) && k <= |ImportOps(w, imp)|
    ensures CrashState(w, imp, Run(ImportOps(w, imp)[..k], w))
    ensures k == |ImportOps(w, imp)| && !Refused(w, imp) && Complete(w.disk, imp) ==> Committed(Run(ImportOps(w, imp)[..k], w), imp.token)
  {
    hide Run, PrepareOps, Slots, StageRoot, Ready, Refused, Complete, Pending, ActivateOps, Sweepable, Committed, SameOutside, SameButTargets, AllPlaced, AllActivating, NoManifest, TargetsHold, Recorded, InferAll, ManifestPath, InWorkspace, ItemsOf;
    SameOutsideJoin(w.disk, w.disk, w.disk);
    var ops := ImportOps(w, imp);
    if Refused(w, imp) {
      assert ops[..k] == [];
      RunNone(w);
      ManifestNames(w, imp);
      NoManifestSweeps(w);
    } else if !Complete(w.disk, imp) || k < |PrepareOps(w, imp)| {
      PrepareIsQuiet(w, imp, k);
      assert ops[..k] == PrepareOps(w, imp)[..k];
      NoManifestSweeps(Run(ops[..k], w));
    } else {
      var p := PrepareOps(w, imp);
      var v := Run(p, w);
      var slots := Slots(w.disk, imp);
      var a := ActivateOps(v, ItemsOf(slots));
      RunSplit(p, a + CommitOps(imp), w, k);
      var k1 := k - |p|;
      RunSplit(a, CommitOps(imp), v, k1);
      if k1 <= |a| {
        DuringActivation(w, imp, k1);
        PendingNotCommitted(Run(ops[..k], w), imp, slots);
      } else {
        DuringActivation(w, imp, |a|);
        assert a[..|a|] == a;
        var c := Run(a, v);
        AfterCommit(c, imp, slots, k1 - |a|);
        TargetsOutside(c.disk, Run(ops[..k], w).disk, imp, slots, true);
        OutsideButTargets(c.disk, Run(ops[..k], w).disk, slots);
        SameButTargetsJoin(w.disk, c.disk, Run(ops[..k], w).disk, slots);
      }
    }
  }

  lemma PendingNotCommitted(c: World, imp: Import, slots: seq<Slot>)
    requires Pending(c, imp.stage, slots, imp.token)
    ensures !Committed(c, imp.token)
  {
  }

  lemma TargetsOutside(a: Disk, b: Disk, imp: Import, slots: seq<Slot>, installed: bool)
    requires AllPlaced(imp.stage, slots) && SameOutside(a, b) && TargetsHold(a, slots, installed)
    ensures TargetsHold(b, slots, installed)
  {
    hide PathsOf, StageRoot;
  }

  lemma OldTargets(a: Disk, b: Disk, imp: Import)
    requires SameOutside(a, b)
    ensures TargetsHold(b, Slots(a, imp), false)
  {
    BackupsFree(imp);
    var slots := Slots(a, imp);
    assert slots[0].item == CoverItem(imp) && slots[1].item == BundleItem(imp);
  }

  lemma LandedTargets(c: Disk, b: Disk, imp: Import, slots: seq<Slot>)
    requires AllPlaced(imp.stage, slots) && AllActivating(c, slots) && Landed(c, b, slots)
    ensures TargetsHold(b, slots, false)
  {
    hide WellPlaced, Activating;
    ActivatingGoals(imp.stage, c, slots);
  }

  /** Recovery after a crash at any step of an import: the old trees if the receipt is absent, the new ones if it is there, and an empty workspace. */
  lemma CrashedImport(w: World, imp: Import, k: nat, names: seq<string>)
    requires Ready(w, imp) && k <= |ImportOps(w, imp)|
    requires Listed(Run(ImportOps(w, imp)[..k], w).disk, names)
    ensures var crashed := Run(ImportOps(w, imp)[..k], w);
            var after := Run(RecoverOps(crashed, names), crashed);
            && after.db == crashed.db
            && (!Committed(crashed, imp.token) ==> after == World(Published(w.disk), w.db))
            && (Committed(crashed, imp.token) ==>
                  Complete(w.disk, imp)
                  && after == World(WithPackage(w.disk, imp), InstalledDb(w.db, imp)))
  {
    var crashed := Run(ImportOps(w, imp)[..k], w);
    CrashStates(w, imp, k);
    RecoverCrashed(w, imp, crashed, names);
  }

  lemma RecoverCrashed(w: World, imp: Import, c: World, names: seq<string>)
    requires !Committed(w, imp.token) && CrashState(w, imp, c) && Listed(c.disk, names)
    ensures var after := Run(RecoverOps(c, names), c);
            && after.db == c.db
            && (!Committed(c, imp.token) ==> after == World(Published(w.disk), w.db))
            && (Committed(c, imp.token) ==>
                  Complete(w.disk, imp)
                  && after == World(WithPackage(w.disk, imp), InstalledDb(w.db, imp)))
  {
    hide Run, RecoverOps, Slots, StageRoot, Complete, Pending, Sweepable, Committed, SameOutside, SameButTargets, AllPlaced, AllActivating, TargetsHold, Listed, Published, WithPackage, Landed;
    var slots := Slots(w.disk, imp);
    var ops := RecoverOps(c, names);
    assert ops[..|ops|] == ops;
    var after := Run(ops, c);
    if Sweepable(c) {
      Sweep(c, names, |ops|);
      if SameOutside(w.disk, c.disk) && c.db == w.db {
        SameOutsideJoin(w.disk, c.disk, after.disk);
        OldTargets(w.disk, after.disk, imp);
        OutsideButTargets(w.disk, after.disk, slots);
        FinalDisk(w.disk, after.disk, imp, false);
        SameCommitted(w, c, imp.token);
      } else {
        CommittedState(w, imp, c);
        SlotsPlaced(w.disk, imp);
        TargetsOutside(c.disk, after.disk, imp, slots, true);
        OutsideButTargets(c.disk, after.disk, slots);
        SameButTargetsJoin(w.disk, c.disk, after.disk, slots);
        FinalDisk(w.disk, after.disk, imp, true);
      }
    } else {
      RecoverPrefix(c, imp.stage, slots, imp.token, names, |ops|);
      PendingNotCommitted(c, imp, slots);
      LandedTargets(c.disk, after.disk, imp, slots);
      SameButTargetsJoin(w.disk, c.disk, after.disk, slots);
      FinalDisk(w.disk, after.disk, imp, false);
    }
  }

  lemma CommittedState(w: World, imp: Import, c: World)
    requires CrashState(w, imp, c) && Sweepable(c) && !(SameOutside(w.disk, c.disk) && c.db == w.db)
    ensures var slots := Slots(w.disk, imp);
      && Complete(w.disk, imp) && SameButTargets(w.disk, c.disk, slots) && TargetsHold(c.disk, slots, true)
      && c.db == InstalledDb(w.db, imp) && Committed(c, imp.token)
  {
    hide Slots, Complete, SameOutside, SameButTargets, TargetsHold, AllActivating, AllPlaced, Undoable;
  }

  // --- Why one recovery must not be interrupted ----------------------------------------

  /** Some old tree has left the stage for its place, and the stage still says it was replaced. */
  predicate Forgotten(disk: Disk, slots: seq<Slot>) {
    exists i | 0 <= i < |slots| :: Mistakable(disk, slots[i])
  }

  /** Recovery of a stage in any state that earlier recoveries left brings all old trees back exactly if none is forgotten. */
  lemma RecoverAgain(w: World, imp: Import, c: World, names: seq<string>)
    requires Pending(c, imp.stage, Slots(w.disk, imp), imp.token) && Listed(c.disk, names)
    requires c.db == w.db && SameButTargets(w.disk, c.disk, Slots(w.disk, imp))
    ensures Run(RecoverOps(c, names), c) == World(Published(w.disk), w.db) <==> !Forgotten(c.disk, Slots(w.disk, imp))
  {
    hide Run, RecoverOps, Slots, StageRoot, Pending, Sweepable, SameButTargets, Listed, Published, Mistakable;
    var slots := Slots(w.disk, imp);
    var ops := RecoverOps(c, names);
    assert ops[..|ops|] == ops;
    var after := Run(ops, c);
    RecoverPrefix(c, imp.stage, slots, imp.token, names, |ops|);
    SameButTargetsJoin(w.disk, c.disk, after.disk, slots);
    PublishedTargets(w.disk, imp);
    if TargetsHold(after.disk, slots, false) {
      FinalDisk(w.disk, after.disk, imp, false);
    }
    if after.disk == Published(w.disk) {
      assert TargetsHold(after.disk, slots, false);
    }
    LandedUnforgotten(c.disk, after.disk, slots);
  }

  lemma PublishedTargets(disk: Disk, imp: Import)
    ensures TargetsHold(Published(disk), Slots(disk, imp), false)
  {
    hide StageRoot;
    BackupsFree(imp);
    var slots := Slots(disk, imp);
    assert slots[0].item == CoverItem(imp) && slots[1].item == BundleItem(imp);
  }

  lemma LandedUnforgotten(c: Disk, after: Disk, slots: seq<Slot>)
    requires Landed(c, after, slots)
    ensures TargetsHold(after, slots, false) <==> !Forgotten(c, slots)
  {
    forall i | 0 <= i < |slots|
      ensures Lookup(after, slots[i].item.target) == slots[i].previous <==> !Mistakable(c, slots[i])
    {
    }
  }

  /** The world in which all trees have been swapped and the receipt is not yet committed. */
  function Swapped(w: World, imp: Import): World {
    var v := Run(PrepareOps(w, imp), w);
    Run(ActivateOps(v, ItemsOf(Slots(w.disk, imp))), v)
  }

  /** A crash can leave this world after some step. */
  ghost predicate Interrupted(ops: seq<Op>, w: World, mid: World) {
    exists k | 0 <= k <= |ops| :: mid == Run(ops[..k], w)
  }

  lemma SwappedIsReached(w: World, imp: Import)
    requires Complete(w.disk, imp) && !Refused(w, imp)
    ensures Interrupted(ImportOps(w, imp), w, Swapped(w, imp))
  {
    hide Run, PrepareOps, Slots, Complete, Refused, ActivateOps, ItemsOf;
    var v := Run(PrepareOps(w, imp), w);
    var a := ActivateOps(v, ItemsOf(Slots(w.disk, imp)));
    var k := |PrepareOps(w, imp)| + |a|;
    RunSplit(PrepareOps(w, imp), a + CommitOps(imp), w, k);
    RunSplit(a, CommitOps(imp), v, |a|);
    assert a[..|a|] == a;
    assert Run(ImportOps(w, imp)[..k], w) == Swapped(w, imp);
  }

  /** The trap: an import that replaced a cover is undone, the power fails before the stage is removed, and the next recovery deletes the restored cover. */
  lemma InterruptedRecoveryLosesCover(w: World, imp: Import, names: seq<string>) returns (mid: World)
    requires Ready(w, imp) && Complete(w.disk, imp) && !Refused(w, imp) && ["covers", imp.slug] in w.disk
    requires names != [] && names[0] == imp.stage
    ensures Interrupted(ImportOps(w, imp), w, Swapped(w, imp))
    ensures Interrupted(RecoverOps(Swapped(w, imp), names), Swapped(w, imp), mid)
    ensures Lookup(mid.disk, ["covers", imp.slug]) == Some(w.disk[["covers", imp.slug]])
    ensures forall again | Listed(mid.disk, again) :: ["covers", imp.slug] !in Run(RecoverOps(mid, again), mid).disk
  {
    hide Run, PrepareOps, Slots, StageRoot, Ready, Refused, Complete, Pending, ActivateOps, SameButTargets, AllPlaced, AllActivating, RolledBack, TargetsHold, Recorded, RecoverStageOps, RecoverOps, RollbackOps, Listed, ItemsOf, InferAll, AllInstalled, Landed, Mistakable;
    var slots := Slots(w.disk, imp);
    var v := Run(PrepareOps(w, imp), w);
    var a := ActivateOps(v, ItemsOf(slots));
    DuringActivation(w, imp, |a|);
    assert a[..|a|] == a;
    var c := Swapped(w, imp);
    SwappedIsReached(w, imp);
    var undo := RollbackOps(c, InferAll(c.disk, ItemsOf(slots)));
    FirstStage(c, imp, slots, names);
    mid := Run(undo, c);
    assert mid == Run(RecoverOps(c, names)[..|undo|], c);
    UndoneCover(w, imp, c, slots);
    forall again | Listed(mid.disk, again)
      ensures ["covers", imp.slug] !in Run(RecoverOps(mid, again), mid).disk
    {
      var ops := RecoverOps(mid, again);
      assert ops[..|ops|] == ops;
      RecoverPrefix(mid, imp.stage, slots, imp.token, again, |ops|);
      LostCover(w, imp, mid.disk, Run(ops, mid).disk);
    }
  }

  /** Where the undoing of a stage ends within a recovery that starts with it. */
  lemma FirstStage(c: World, imp: Import, slots: seq<Slot>, names: seq<string>)
    requires Pending(c, imp.stage, slots, imp.token) && names != [] && names[0] == imp.stage
    ensures var undo := RollbackOps(c, InferAll(c.disk, ItemsOf(slots)));
            var ops := RecoverOps(c, names);
            |undo| < |ops| && ops[..|undo|] == undo
  {
    hide Undoable, Run, RollbackOps, InferAll, ItemsOf;
  }

  lemma UndoneCover(w: World, imp: Import, c: World, slots: seq<Slot>)
    requires slots == Slots(w.disk, imp) && Pending(c, imp.stage, slots, imp.token) && AllInstalled(c.disk, slots)
    requires AllPlaced(imp.stage, slots) && AllActivating(c.disk, slots) && ["covers", imp.slug] in w.disk
    ensures var mid := Run(RollbackOps(c, InferAll(c.disk, ItemsOf(slots))), c);
            && Pending(mid, imp.stage, slots, imp.token)
            && Mistakable(mid.disk, CoverSlot(w.disk, imp))
            && Lookup(mid.disk, ["covers", imp.slug]) == Some(w.disk[["covers", imp.slug]])
  {
    hide Run, StageRoot, RollbackOps, ItemsOf, InferAll, IsSpot, PathsOf, Undoable, Committed;
    var undo := RollbackOps(c, InferAll(c.disk, ItemsOf(slots)));
    assert undo[..|undo|] == undo;
    PendingUndoable(c, imp, slots);
    RollbackPrefix(c, imp.stage, slots, |undo|);
    StillPending(c, Run(undo, c), imp.stage, slots, imp.token);
    assert slots[0] == CoverSlot(w.disk, imp);
    ActivatingGoals(imp.stage, c.disk, slots);
  }

  lemma PendingUndoable(c: World, imp: Import, slots: seq<Slot>)
    requires Pending(c, imp.stage, slots, imp.token)
    ensures AllPlaced(imp.stage, slots) && Disjoint(slots) && AllLegal(c.disk, slots) && Leaves(c.disk, slots)
  {
  }

  lemma LostCover(w: World, imp: Import, mid: Disk, after: Disk)
    requires Landed(mid, after, Slots(w.disk, imp)) && Mistakable(mid, CoverSlot(w.disk, imp))
    ensures ["covers", imp.slug] !in after
  {
    var slots := Slots(w.disk, imp);
    assert slots[0] == CoverSlot(w.disk, imp);
    assert Lookup(after, slots[0].item.target) == None;
  }
}
