/** Installing an uploaded cover: its steps in order, and what any number of crashes and recoveries leave, whatever earlier installations left over. */
module CoverUploads {
  import opened Wrappers
  import opened Storage
  import opened Text
  import opened GameCovers
  import opened CoverRecovery

  /** A new cover for a game, waiting in the upload workspace. */
  datatype Upload = Upload(game: string, source: Path, target: Path, stage: string, token: string)

  /** The old cover file, if the game's cover URL is its path and nothing more, the game is the only one to show it and it is not the new one. */
  function Replaced(w: World, up: Upload): Option<Path> {
    if up.game !in w.db.covers || !w.db.covers[up.game].plain || w.db.covers[up.game].path == up.target || !IsCover(w.db.covers[up.game].path)
       || ReferencedByOther(w.db, w.db.covers[up.game].path, up.game)
    then None
    else Some(w.db.covers[up.game].path)
  }

  function StageOf(w: World, up: Upload): Stage {
    Stage(up.stage, up.token, up.target, Replaced(w, up), up.target !in w.disk)
  }

  function ReceiptOf(w: World, up: Upload): Receipt {
    Receipt(up.game, up.target, Replaced(w, up))
  }

  /** The upload is a file of the workspace, its content has the digest its target is named after, and a file already there has too. */
  predicate Acceptable(w: World, up: Upload) {
    && IsCover(up.target) && Trim(up.token) != "" && |up.source| == 2 && InUploads(up.source)
    && Lookup(w.disk, up.source) == Some(File(DigestOf(up.target)))
    && (up.target in w.disk ==> Verified(w.disk, up.target))
  }

  // --- The steps -----------------------------------------------------------------------

  function ManifestOf(st: Stage): Entry {
    CoverManifest(st.token, st.target, st.replaced, st.created)
  }

  function PrepareOps(w: World, up: Upload): (ops: seq<Op>)
    ensures |ops| == 4
  {
    [Write(StageRoot(up.stage), Folder), Move(up.source, IncomingPath(up.stage)),
     Write(TemporaryPath(up.stage), ManifestOf(StageOf(w, up))), Move(TemporaryPath(up.stage), ManifestPath(up.stage))]
  }

  function ActivateOps(w: World, up: Upload): seq<Op> {
    if StageOf(w, up).created then [Move(IncomingPath(up.stage), up.target)] else []
  }

  function CommitOp(w: World, up: Upload): Op {
    CommitCover(up.token, ReceiptOf(w, up))
  }

  /** The steps up to and including the commit. */
  function InstallOps(w: World, up: Upload): seq<Op> {
    PrepareOps(w, up) + (ActivateOps(w, up) + [CommitOp(w, up)])
  }

  function UploadOps(w: World, up: Upload): seq<Op> {
    if !Acceptable(w, up) then []
    else
      var v := Run(InstallOps(w, up), w);
      InstallOps(w, up) + FinalizePlan(v, StageOf(w, up)).ops
  }

  function CommittedDb(w: World, up: Upload): Database {
    Apply(CommitOp(w, up), w).db
  }

  /** The commit is among the steps that are taken. */
  predicate CommitTaken(w: World, up: Upload, fuse: int) {
    Acceptable(w, up) && Taken(fuse, |UploadOps(w, up)|) >= |InstallOps(w, up)|
  }

  /** What the installation leaves: if a step before the commit fails, it undoes itself with the steps that are possible again. */
  function UploadRun(w: World, up: Upload, fuse: int, again: int): World {
    var ops := UploadOps(w, up);
    var v := Executed(ops, w, fuse);
    if !Acceptable(w, up) then w
    else if CommitTaken(w, up, fuse) || fuse == 0 then v
    else if fuse < 4 then Executed([RemoveAll(StageRoot(up.stage))], v, again)
    else Executed(RollbackPlan(v, StageOf(w, up)).ops, v, again)
  }

  // --- What is assumed before ----------------------------------------------------------

  /** Nothing is at or below the directory of the new stage. */
  ghost predicate Unused(disk: Disk, stage: string) {
    forall p | p in disk :: !(StageRoot(stage) <= p)
  }

  /** Stages may be left over as long as recovery can resolve them; the new names are fresh. */
  ghost predicate Ready(w: World, up: Upload) {
    && Resolvable(w) && Unused(w.disk, up.stage) && up.token !in w.db.receipts
    && forall n: string | LoadStage(w.disk, n).Loaded? :: LoadStage(w.disk, n).stage.token != up.token
  }

  /** A stage that was never committed is left over and says it brought the very file that is uploaded now. */
  predicate ClashesWith(disk: Disk, db: Database, up: Upload, name: string) {
    LoadStage(disk, name).Loaded? && LoadStage(disk, name).stage.created && LoadStage(disk, name).stage.target == up.target
    && !Committed(db, LoadStage(disk, name).stage)
  }

  ghost predicate Clashes(w: World, up: Upload) {
    exists n: string :: ClashesWith(w.disk, w.db, up, n)
  }

  lemma ReadyIsResolvable(w: World, up: Upload)
    requires Ready(w, up)
    ensures Resolvable(w) && Orderly(w) && Honest(w.disk)
  {
    hide Good, Blocks, LoadStage;
  }

  // --- The new stage -------------------------------------------------------------------

  function NewFile(up: Upload): Option<Entry>
    requires IsCover(up.target)
  {
    Some(File(DigestOf(up.target)))
  }

  /** Facts about the stage of an upload. */
  lemma StageFacts(w: World, up: Upload)
    requires Acceptable(w, up)
    ensures ValidStage(StageOf(w, up))
    ensures !InUploads(up.target) && (Replaced(w, up).Some? ==> !InUploads(Replaced(w, up).value) && Replaced(w, up) != Some(up.target))
    ensures Referenced(CommittedDb(w, up), up.target)
    ensures Replaced(w, up).Some? ==> Referenced(w.db, Replaced(w, up).value) && !Referenced(CommittedDb(w, up), Replaced(w, up).value)
    ensures up.token in CommittedDb(w, up).receipts && CommittedDb(w, up).receipts[up.token] == ReceiptOf(w, up)
  {
    hide IsCover, Trim;
    CoversApart(up.target, "");
    if Replaced(w, up).Some? {
      CoversApart(Replaced(w, up).value, "");
    }
    assert CommittedDb(w, up).covers[up.game].path == up.target;
  }

  /** The replaced file is what the game's cover URL names, if it names a cover file by its path and nothing more, the file is not the new one and no other game shows it; after the commit no game shows it, and the game shows the new one. */
  lemma ReplacedExactly(w: World, up: Upload, p: Path)
    requires Acceptable(w, up)
    ensures Replaced(w, up) == Some(p) <==>
              up.game in w.db.covers && w.db.covers[up.game] == CoverUrl(p, true) && IsCover(p) && p != up.target
              && forall g | g in w.db.covers && g != up.game :: w.db.covers[g].path != p
    ensures var after := CommittedDb(w, up).covers;
            && up.game in after && after[up.game] == CoverUrl(up.target, true) && (forall g | g in w.db.covers && g != up.game :: g in after && after[g] == w.db.covers[g])
            && (Replaced(w, up) == Some(p) ==> forall g | g in after :: after[g].path != p)
  {
    hide IsCover, Trim;
  }

  /** After the commit a path is shown if it is the new one, or if it was shown before and is not the replaced one. */
  lemma ShownAfter(w: World, up: Upload, p: Path)
    ensures Referenced(CommittedDb(w, up), p) ==> p == up.target || Referenced(w.db, p)
  {
    hide IsCover, Replaced;
  }

  lemma AcceptableTarget(w: World, up: Upload)
    requires Acceptable(w, up)
    ensures IsCover(up.target)
  {
  }

  lemma NewTarget(w: World, up: Upload)
    requires Acceptable(w, up)
    ensures up.target in w.disk ==> Lookup(w.disk, up.target) == NewFile(up)
  {
    hide IsCover, Trim;
  }

  // --- The stage is sealed -------------------------------------------------------------

  /** The new stage has its manifest; outside the workspace only the new file may have come. */
  ghost predicate Sealed(w: World, up: Upload, v: World)
    requires IsCover(up.target)
  {
    && LoadStage(v.disk, up.stage) == Loaded(StageOf(w, up))
    && (forall n: string | n != up.stage :: LoadStage(v.disk, n) == LoadStage(w.disk, n))
    && (forall p: Path | !InUploads(p) && p != up.target :: Lookup(v.disk, p) == Lookup(w.disk, p))
    && (Lookup(v.disk, up.target) == Lookup(w.disk, up.target) || Lookup(v.disk, up.target) == NewFile(up))
  }

  /** Nothing has changed that matters to games or recovery. */
  ghost predicate Alike(w: World, v: World) {
    && v.db == w.db && (forall n: string :: LoadStage(v.disk, n) == LoadStage(w.disk, n))
    && forall p: Path | !InUploads(p) :: Lookup(v.disk, p) == Lookup(w.disk, p)
  }

  lemma SealedTokens(w: World, up: Upload, v: World, n: string, m: string)
    requires Ready(w, up) && Acceptable(w, up) && Sealed(w, up, v) && n != m
    ensures TokensDiffer(v.disk, n, m)
  {
    hide IsCover, LoadStage, InUploads, Trim, Good, Blocks, Honest, Verified, Replaced, Acceptable;
    assert TokensDiffer(w.disk, n, m);
  }

  lemma SealedOrderly(w: World, up: Upload, v: World)
    requires Ready(w, up) && Acceptable(w, up) && Sealed(w, up, v)
    ensures Orderly(v)
  {
    hide LoadStage, InUploads, Ready, Acceptable, TokensDiffer, IsCover;
    ReadyIsResolvable(w, up);
    AcceptableTarget(w, up);
    forall p | p in v.disk && IsCover(p)
      ensures Verified(v.disk, p)
    {
      CoversApart(p, "");
      SealedHonest(w, up, v, p);
    }
    forall n: string, m: string | n != m
      ensures TokensDiffer(v.disk, n, m)
    {
      SealedTokens(w, up, v, n, m);
    }
  }

  lemma SealedHonest(w: World, up: Upload, v: World, p: Path)
    requires IsCover(up.target) && Honest(w.disk) && Sealed(w, up, v) && p in v.disk && IsCover(p) && !InUploads(p)
    ensures Verified(v.disk, p)
  {
    hide LoadStage, InUploads, IsCover, Replaced;
    assert p in w.disk ==> Verified(w.disk, p);
  }

  /** Before the commit: recovery can resolve the new stage too, which gives up the file it brought. */
  lemma SealedResolvable(w: World, up: Upload, v: World, p: Path)
    requires Ready(w, up) && Acceptable(w, up) && Sealed(w, up, v) && v.db == w.db
    ensures Resolvable(v) && (Given(v, p) <==> Given(w, p) || (StageOf(w, up).created && p == up.target))
  {
    hide LoadStage, InUploads, Ready, Acceptable, IsCover, Orderly, Good, Blocks, GivesOf, Sealed, StageOf;
    SealedOrderly(w, up, v);
    NoStageYet(w, up);
    ReadyIsResolvable(w, up);
    forall n: string
      ensures Good(v, n)
    {
      SealedGood(w, up, v, n);
    }
    forall n: string, m: string
      ensures !Blocks(v, n, m)
    {
      SealedBlocksNot(w, up, v, n, m);
    }
    SealedGives(w, up, v);
    if n: string :| p in Gives(w, n) {
      assert n != up.stage && p in Gives(v, n);
    }
    if n: string :| p in Gives(v, n) {
      assert n == up.stage || p in Gives(w, n);
    }
    assert StageOf(w, up).created && p == up.target ==> p in Gives(v, up.stage);
  }

  lemma NoStageYet(w: World, up: Upload)
    requires Ready(w, up)
    ensures Unused(w.disk, up.stage) && LoadStage(w.disk, up.stage).Missing? && Gives(w, up.stage) == {}
    ensures ManifestPath(up.stage) !in w.disk
  {
    hide Resolvable, StageRoot;
    StagesApart(up.stage, up.stage, ManifestPath(up.stage));
  }

  lemma SealedGives(w: World, up: Upload, v: World)
    requires Ready(w, up) && Acceptable(w, up) && Sealed(w, up, v) && v.db == w.db
    ensures Gives(v, up.stage) == (if StageOf(w, up).created then {up.target} else {})
    ensures forall n: string | n != up.stage :: Gives(v, n) == Gives(w, n)
  {
    hide LoadStage, InUploads, Acceptable, IsCover, Resolvable, Referenced, Replaced, StageRoot;
  }

  lemma SealedGood(w: World, up: Upload, v: World, name: string)
    requires Ready(w, up) && Acceptable(w, up) && Sealed(w, up, v) && v.db == w.db
    ensures Good(v, name)
  {
    hide LoadStage, InUploads, Acceptable, IsCover, Referenced, Replaced, StageRoot, Resolvable;
    ReadyIsResolvable(w, up);
    ResolvableAt(w, name);
    if name != up.stage && LoadStage(w.disk, name).Loaded? {
      var target := LoadStage(w.disk, name).stage.target;
      TargetOutside(w, name);
      assert Lookup(v.disk, target) == Lookup(w.disk, target) || target in v.disk;
    }
  }

  lemma SealedBlocksNot(w: World, up: Upload, v: World, n: string, m: string)
    requires Ready(w, up) && Acceptable(w, up) && Sealed(w, up, v) && v.db == w.db
    ensures !Blocks(v, n, m)
  {
    hide LoadStage, InUploads, Acceptable, IsCover, Referenced, Replaced, StageRoot, Good, Orderly;
    assert Good(w, m) && !Blocks(w, n, m);
    if m != up.stage && n == up.stage && Blocks(v, n, m) {
      GoodTarget(w, m);
    }
  }

  /** A committed stage whose target some game shows can be finished only while the file is there. */
  lemma GoodTarget(w: World, name: string)
    requires Good(w, name) && Settled(w, name) && Referenced(w.db, LoadStage(w.disk, name).stage.target)
    ensures LoadStage(w.disk, name).stage.target in w.disk
  {
    hide LoadStage, Referenced;
  }

  // --- The stage is committed ----------------------------------------------------------

  /** The leftovers under the rows after the commit. */
  function Afterwards(w: World, up: Upload): World {
    World(w.disk, CommittedDb(w, up))
  }

  lemma CommitChanges(w: World, up: Upload)
    ensures var db := CommittedDb(w, up);
            && db.games == w.db.games + {up.game} && db.packages == w.db.packages && db.covers == w.db.covers[up.game := CoverUrl(up.target, true)]
            && db.receipts == w.db.receipts[up.token := ReceiptOf(w, up)]
  {
  }

  lemma OtherReceipt(w: World, up: Upload, name: string)
    requires Ready(w, up) && LoadStage(w.disk, name).Loaded?
    ensures var token := LoadStage(w.disk, name).stage.token;
            (token in CommittedDb(w, up).receipts <==> token in w.db.receipts)
            && (token in w.db.receipts ==> CommittedDb(w, up).receipts[token] == w.db.receipts[token])
  {
    hide LoadStage, Resolvable, ReceiptOf;
  }

  lemma CommittedGives(w: World, up: Upload, v: World)
    requires Ready(w, up) && Acceptable(w, up) && Sealed(w, up, v) && v.db == CommittedDb(w, up)
    ensures Gives(v, up.stage) == (if Replaced(w, up).Some? then {Replaced(w, up).value} else {})
    ensures forall n: string | n != up.stage :: Gives(v, n) == Gives(Afterwards(w, up), n)
  {
    hide LoadStage, InUploads, Acceptable, IsCover, Resolvable, Referenced, Replaced, StageRoot, CommittedDb;
    StageFacts(w, up);
  }

  lemma CommittedGood(w: World, up: Upload, v: World, name: string)
    requires Ready(w, up) && Acceptable(w, up) && Sealed(w, up, v) && v.db == CommittedDb(w, up) && Lookup(v.disk, up.target) == NewFile(up)
    ensures Good(v, name)
  {
    hide LoadStage, InUploads, Acceptable, IsCover, Referenced, Replaced, StageRoot, Resolvable, CommittedDb;
    ReadyIsResolvable(w, up);
    ResolvableAt(w, name);
    StageFacts(w, up);
    assert up.target in v.disk;
    if name != up.stage && LoadStage(w.disk, name).Loaded? {
      var target := LoadStage(w.disk, name).stage.target;
      OtherReceipt(w, up, name);
      ShownAfter(w, up, target);
      TargetOutside(w, name);
      assert Lookup(v.disk, target) == Lookup(w.disk, target) || target in v.disk;
    }
  }

  lemma CommittedBlocksNot(w: World, up: Upload, v: World, n: string, m: string)
    requires Ready(w, up) && Acceptable(w, up) && Sealed(w, up, v) && v.db == CommittedDb(w, up) && !Clashes(w, up)
    ensures !Blocks(v, n, m)
  {
    hide LoadStage, InUploads, Acceptable, IsCover, Referenced, Replaced, StageRoot, Good, Orderly, CommittedDb;
    assert !Blocks(w, n, m) && !ClashesWith(w.disk, w.db, up, n);
    StageFacts(w, up);
    if Blocks(v, n, m) && n != up.stage {
      OtherReceipt(w, up, n);
      if m != up.stage {
        OtherReceipt(w, up, m);
      }
      ShownAfter(w, up, LoadStage(v.disk, m).stage.target);
    }
  }

  /** After the commit: recovery can resolve the new stage too, which gives up the replaced file, unless a leftover stage clashes with the upload. */
  lemma CommittedResolvable(w: World, up: Upload, v: World, p: Path)
    requires Ready(w, up) && Acceptable(w, up) && Sealed(w, up, v) && v.db == CommittedDb(w, up) && Lookup(v.disk, up.target) == NewFile(up)
    ensures !Clashes(w, up) ==> Resolvable(v)
    ensures Given(v, p) <==> Given(Afterwards(w, up), p) || Some(p) == Replaced(w, up)
  {
    hide LoadStage, InUploads, Ready, Acceptable, IsCover, Orderly, Good, Blocks, GivesOf, Sealed, StageOf, CommittedDb, Replaced, Clashes;
    SealedOrderly(w, up, v);
    NoStageYet(w, up);
    forall n: string
      ensures Good(v, n)
    {
      CommittedGood(w, up, v, n);
    }
    if !Clashes(w, up) {
      forall n: string, m: string
        ensures !Blocks(v, n, m)
      {
        CommittedBlocksNot(w, up, v, n, m);
      }
    }
    CommittedGives(w, up, v);
    if n: string :| p in Gives(Afterwards(w, up), n) {
      GivenIsLoaded(Afterwards(w, up), n, p);
      assert n != up.stage && p in Gives(v, n);
    }
    if n: string :| p in Gives(v, n) {
      assert n == up.stage || p in Gives(Afterwards(w, up), n);
    }
    assert Some(p) == Replaced(w, up) ==> p in Gives(v, up.stage);
  }

  /** The target is given up by a leftover stage exactly if that stage clashes. */
  lemma TargetGiven(w: World, up: Upload)
    requires Ready(w, up) && Acceptable(w, up)
    ensures Given(Afterwards(w, up), up.target) <==> Clashes(w, up)
  {
    hide InUploads, Acceptable, IsCover, Referenced, Replaced, StageRoot, CommittedDb, LoadStage, Resolvable;
    StageFacts(w, up);
    var after := Afterwards(w, up);
    if n: string :| up.target in Gives(after, n) {
      OtherReceipt(w, up, n);
      assert ClashesWith(w.disk, w.db, up, n);
    }
    if n: string :| ClashesWith(w.disk, w.db, up, n) {
      OtherReceipt(w, up, n);
      assert up.target in Gives(after, n);
    }
  }

  // --- Preparing -----------------------------------------------------------------------

  lemma StageFilesApart(stage: string)
    ensures var root := StageRoot(stage);
            && InUploads(root) && InUploads(IncomingPath(stage)) && InUploads(TemporaryPath(stage)) && InUploads(ManifestPath(stage))
            && IncomingPath(stage) != TemporaryPath(stage) && IncomingPath(stage) != ManifestPath(stage) && TemporaryPath(stage) != ManifestPath(stage)
            && |root| == 2 && |IncomingPath(stage)| == |TemporaryPath(stage)| == |ManifestPath(stage)| == 3
            && root <= IncomingPath(stage) && root <= TemporaryPath(stage) && root <= ManifestPath(stage)
    ensures forall s: string :: ManifestPath(s) != IncomingPath(stage) && ManifestPath(s) != TemporaryPath(stage) && |ManifestPath(s)| == 3
    ensures forall s: string :: ManifestPath(s) == ManifestPath(stage) ==> s == stage
  {
    assert |"incoming"| == 8 && |"install.json"| == 12 && |"install.json.tmp"| == 16;
    assert IncomingPath(stage)[2] == "incoming" && TemporaryPath(stage)[2] == "install.json.tmp";
    assert forall s: string :: ManifestPath(s)[2] == "install.json" && ManifestPath(s)[1] == s;
  }

  /** What preparation leaves at a path after k steps. */
  function PreparedAt(w: World, up: Upload, k: nat, p: Path): Option<Entry> {
    if k >= 1 && p == StageRoot(up.stage) then Some(Folder)
    else if k >= 2 && p == IncomingPath(up.stage) then Lookup(w.disk, up.source)
    else if k >= 2 && p == up.source then None
    else if k == 3 && p == TemporaryPath(up.stage) then Some(ManifestOf(StageOf(w, up)))
    else if k == 4 && p == ManifestPath(up.stage) then Some(ManifestOf(StageOf(w, up)))
    else Lookup(w.disk, p)
  }

  lemma SourceApart(w: World, up: Upload)
    requires Unused(w.disk, up.stage) && Acceptable(w, up)
    ensures up.source in w.disk && !(StageRoot(up.stage) <= up.source) && InUploads(up.source)
    ensures forall s: string :: ManifestPath(s) != up.source
  {
    hide Resolvable, LoadStage, IsCover, Trim;
    StageFilesApart(up.stage);
  }

  lemma FirstTwo(w: World, up: Upload, k: nat, p: Path)
    requires Unused(w.disk, up.stage) && Acceptable(w, up) && k <= 2
    ensures var v := Run(PrepareOps(w, up)[..k], w); v.db == w.db && Lookup(v.disk, p) == PreparedAt(w, up, k, p)
  {
    hide IncomingPath, TemporaryPath, ManifestPath, ManifestOf, StageOf, Unused, Acceptable;
    SourceApart(w, up);
    StageFilesApart(up.stage);
    RunUpTo3(PrepareOps(w, up)[..k], w);
  }

  /** The manifest is written beside its place and moved there. */
  lemma LastTwo(v: World, temporary: Path, manifest: Path, entry: Entry, k: nat, p: Path)
    requires temporary != manifest && temporary !in v.disk && k <= 2
    ensures var u := Run([Write(temporary, entry), Move(temporary, manifest)][..k], v);
            u.db == v.db && Lookup(u.disk, p) == if (k == 1 && p == temporary) || (k == 2 && p == manifest) then Some(entry) else Lookup(v.disk, p)
  {
    RunUpTo3([Write(temporary, entry), Move(temporary, manifest)][..k], v);
  }

  lemma Prepared(w: World, up: Upload, k: nat, p: Path)
    requires Unused(w.disk, up.stage) && Acceptable(w, up) && k <= 4
    ensures var v := Run(PrepareOps(w, up)[..k], w); v.db == w.db && Lookup(v.disk, p) == PreparedAt(w, up, k, p)
  {
    hide StageRoot, IncomingPath, TemporaryPath, ManifestPath, ManifestOf, StageOf, Acceptable, Resolvable, LoadStage, Run;
    StageFilesApart(up.stage);
    SourceApart(w, up);
    var ops := PrepareOps(w, up);
    RunSplit(ops[..2], ops[2..4], w, k);
    assert ops[..2] + ops[2..4] == ops;
    FirstTwo(w, up, if k < 2 then k else 2, p);
    if k > 2 {
      FirstTwo(w, up, 2, TemporaryPath(up.stage));
      LastTwo(Run(ops[..2], w), TemporaryPath(up.stage), ManifestPath(up.stage), ManifestOf(StageOf(w, up)), k - 2, p);
    } else {
      assert ops[..2][..k] == ops[..k];
    }
  }

  lemma LoadDepends(a: Disk, b: Disk, name: string)
    ensures Lookup(a, ManifestPath(name)) == Lookup(b, ManifestPath(name)) ==> LoadStage(a, name) == LoadStage(b, name)
  {
    hide ManifestPath, ValidStage;
  }

  lemma SealedLoads(w: World, up: Upload, disk: Disk)
    requires Acceptable(w, up) && Lookup(disk, ManifestPath(up.stage)) == Some(ManifestOf(StageOf(w, up)))
    ensures LoadStage(disk, up.stage) == Loaded(StageOf(w, up))
  {
    hide ManifestPath, Acceptable, Replaced, ValidStage;
    StageFacts(w, up);
  }

  /** Preparation up to any step. */
  lemma WhilePreparing(w: World, up: Upload, k: nat)
    requires Unused(w.disk, up.stage) && Acceptable(w, up) && k <= 4
    ensures var v := Run(PrepareOps(w, up)[..k], w);
            && IsCover(up.target) && v.db == w.db && (k < 4 ==> Alike(w, v)) && (k == 4 ==> Sealed(w, up, v))
            && Lookup(v.disk, up.target) == Lookup(w.disk, up.target)
            && (k >= 2 ==> Lookup(v.disk, IncomingPath(up.stage)) == NewFile(up))
  {
    hide IsCover, StageRoot, IncomingPath, TemporaryPath, ManifestPath, ManifestOf, Run, PrepareOps, Replaced, Unused, Verified, Trim, LoadStage, StageOf;
    var v := Run(PrepareOps(w, up)[..k], w);
    forall p: Path
      ensures Lookup(v.disk, p) == PreparedAt(w, up, k, p)
    {
      Prepared(w, up, k, p);
    }
    Prepared(w, up, k, []);
    StageFilesApart(up.stage);
    SourceApart(w, up);
    StageFacts(w, up);
    forall n: string | n != up.stage || k < 4
      ensures LoadStage(v.disk, n) == LoadStage(w.disk, n)
    {
      LoadDepends(v.disk, w.disk, n);
    }
    if k == 4 {
      SealedLoads(w, up, v.disk);
    }
  }

  // --- Activating and committing -------------------------------------------------------

  /** Moving the new file into its place: how far an earlier attempt got is read off the disk, and the file is checked in the end. */
  function ActivatePlan(w: World, st: Stage): Plan {
    var incoming, installed := IncomingPath(st.name) in w.disk, st.target in w.disk;
    if !st.created then Plan([], Verified(w.disk, st.target))
    else if incoming && !installed then
      var v := Apply(Move(IncomingPath(st.name), st.target), w);
      Plan([Move(IncomingPath(st.name), st.target)], Verified(v.disk, st.target))
    else if !incoming && installed then Plan([], Verified(w.disk, st.target))
    else Plan([], false)
  }

  lemma PrepareLength(w: World, up: Upload)
    ensures |PrepareOps(w, up)| == 4 && PrepareOps(w, up)[..4] == PrepareOps(w, up)
  {
  }

  /** In a prepared stage the move is what is needed, and the check succeeds. */
  lemma ActivateIs(w: World, up: Upload)
    requires Unused(w.disk, up.stage) && Acceptable(w, up)
    ensures ActivatePlan(Run(PrepareOps(w, up), w), StageOf(w, up)) == Plan(ActivateOps(w, up), true)
  {
    hide StageRoot, IncomingPath, ManifestPath, ManifestOf, Run, PrepareOps, Replaced, Unused, IsCover, InUploads, Sealed, Trim;
    PrepareLength(w, up);
    WhilePreparing(w, up, 4);
    var v := Run(PrepareOps(w, up), w);
    NewTarget(w, up);
    StageFilesApart(up.stage);
    StageFacts(w, up);
    assert up.target in v.disk <==> Lookup(v.disk, up.target).Some?;
    if StageOf(w, up).created {
      MovedFile(v, IncomingPath(up.stage), up.target);
    }
  }

  lemma MovedFile(v: World, source: Path, destination: Path)
    requires source in v.disk && source != destination
    ensures Lookup(Apply(Move(source, destination), v).disk, destination) == Lookup(v.disk, source)
  {
  }

  lemma TargetMoved(w: World, up: Upload, v: World)
    requires Acceptable(w, up) && Sealed(w, up, v) && Lookup(v.disk, IncomingPath(up.stage)) == NewFile(up)
    ensures var u := Apply(Move(IncomingPath(up.stage), up.target), v);
            u.db == v.db && Sealed(w, up, u) && Lookup(u.disk, up.target) == NewFile(up)
  {
    hide IsCover, Replaced, InUploads, ManifestPath, ManifestOf, IncomingPath, StageRoot, LoadStage, Acceptable, StageOf;
    var incoming := IncomingPath(up.stage);
    var u := Apply(Move(incoming, up.target), v);
    StageFacts(w, up);
    StageFilesApart(up.stage);
    AcceptableTarget(w, up);
    assert forall p: Path :: Lookup(u.disk, p) == if p == up.target then NewFile(up) else if p == incoming then None else Lookup(v.disk, p);
    forall n: string
      ensures LoadStage(u.disk, n) == LoadStage(v.disk, n)
    {
      CoversApart(up.target, n);
      LoadDepends(u.disk, v.disk, n);
    }
  }

  /** Moving the new file into its place. */
  lemma WhileActivating(w: World, up: Upload, k: nat)
    requires Unused(w.disk, up.stage) && Acceptable(w, up) && k <= |ActivateOps(w, up)|
    ensures var u := Run(ActivateOps(w, up)[..k], Run(PrepareOps(w, up), w));
            && IsCover(up.target) && u.db == w.db && Sealed(w, up, u) && (k == |ActivateOps(w, up)| ==> Lookup(u.disk, up.target) == NewFile(up))
            && (k == 0 ==> Lookup(u.disk, up.target) == Lookup(w.disk, up.target)) && |ActivateOps(w, up)| <= 1
  {
    hide IsCover, IncomingPath, Run, PrepareOps, Acceptable, Unused, Sealed, Apply;
    PrepareLength(w, up);
    WhilePreparing(w, up, 4);
    NewTarget(w, up);
    var v := Run(PrepareOps(w, up), w);
    if k == 0 {
      assert ActivateOps(w, up)[..0] == [];
      RunNone(v);
    } else {
      assert ActivateOps(w, up)[..1] == [Move(IncomingPath(up.stage), up.target)];
      RunOne(Move(IncomingPath(up.stage), up.target), v);
      TargetMoved(w, up, v);
    }
  }

  lemma CoverCommitted(w: World, up: Upload, v: World)
    requires IsCover(up.target) && v.db == w.db && Sealed(w, up, v)
    ensures var u := Apply(CommitOp(w, up), v); u.disk == v.disk && u.db == CommittedDb(w, up) && Sealed(w, up, u)
  {
    hide IsCover, LoadStage, StageOf, ReceiptOf;
  }

  /** The installation up to any step. */
  lemma Installing(w: World, up: Upload, k: nat)
    requires Unused(w.disk, up.stage) && Acceptable(w, up) && k <= |InstallOps(w, up)|
    ensures var v := Run(InstallOps(w, up)[..k], w);
            && IsCover(up.target) && (k < 4 ==> Alike(w, v)) && (k >= 4 ==> Sealed(w, up, v))
            && v.db == (if k < |InstallOps(w, up)| then w.db else CommittedDb(w, up))
            && (k <= 4 ==> Lookup(v.disk, up.target) == Lookup(w.disk, up.target)) && (k >= 5 ==> Lookup(v.disk, up.target) == NewFile(up))
  {
    hide IsCover, Unused, Acceptable, Run, PrepareOps, ActivateOps, Sealed, CommitOp, CommittedDb;
    PrepareLength(w, up);
    var p, a, c := PrepareOps(w, up), ActivateOps(w, up), [CommitOp(w, up)];
    RunSplit(p, a + c, w, k);
    if k < 4 {
      WhilePreparing(w, up, k);
    } else {
      var v := Run(p, w);
      RunSplit(a, c, v, k - 4);
      WhileActivating(w, up, if k - 4 <= |a| then k - 4 else |a|);
      assert a[..|a|] == a;
      if k - 4 > |a| {
        assert c[..1] == c;
        RunOne(CommitOp(w, up), Run(a, v));
        CoverCommitted(w, up, Run(a, v));
      }
    }
  }

  // --- Where a crash or a failure leaves the world -------------------------------------

  /** The state after the last step that counts: the one that fails, or the commit. */
  function Anchor(w: World, up: Upload, fuse: int): World {
    if !Acceptable(w, up) then w
    else if CommitTaken(w, up, fuse) then Run(InstallOps(w, up), w)
    else Run(InstallOps(w, up)[..Taken(fuse, |InstallOps(w, up)|)], w)
  }

  lemma AlikeResolvable(w: World, v: World, p: Path)
    requires Resolvable(w) && Alike(w, v)
    ensures Resolvable(v) && (Given(v, p) <==> Given(w, p))
  {
    hide LoadStage, InUploads, Orderly, Referenced, IsCover, GivesOf, Settled;
    forall n: string
      ensures SameStage(w, v, n)
    {
      SameSettled(w, v, n);
    }
    OrderlyLater(w, v);
    TowardAlike(w, v);
    ResolvableKept(w, v);
    if n: string :| p in Gives(w, n) {
      assert SameStage(w, v, n);
      assert p in Gives(v, n);
    }
    if n: string :| p in Gives(v, n) {
      assert SameStage(w, v, n);
      assert p in Gives(w, n);
    }
  }

  lemma SameSettled(w: World, v: World, name: string)
    requires v.db == w.db && LoadStage(v.disk, name) == LoadStage(w.disk, name)
    ensures SameStage(w, v, name)
  {
    hide LoadStage, GivesOf;
  }

  lemma TowardAlike(w: World, v: World)
    requires v.db == w.db && (forall n: string :: SameStage(w, v, n)) && forall p: Path | !InUploads(p) :: Lookup(v.disk, p) == Lookup(w.disk, p)
    ensures Toward(w, v)
  {
    hide LoadStage, InUploads, GivesOf, Settled;
    forall p: Path | Given(w, p)
      ensures Given(v, p)
    {
      var n: string :| p in Gives(w, n);
      assert SameStage(w, v, n);
      assert p in Gives(v, n);
    }
  }

  /** At the anchor recovery can resolve every stage, and what they give up is known. */
  lemma AnchorGives(w: World, up: Upload, fuse: int, p: Path)
    requires Ready(w, up)
    ensures var a := Anchor(w, up, fuse);
            && Orderly(a)
            && (!CommitTaken(w, up, fuse) ==>
                  && Resolvable(a) && a.db == w.db
                  && (!InUploads(p) ==> (if Given(a, p) then None else Lookup(a.disk, p)) == if Given(w, p) then None else Lookup(w.disk, p)))
            && (CommitTaken(w, up, fuse) ==>
                  && IsCover(up.target) && a.db == CommittedDb(w, up) && (!Clashes(w, up) ==> Resolvable(a))
                  && (Given(a, p) <==> Given(Afterwards(w, up), p) || Some(p) == Replaced(w, up))
                  && (!InUploads(p) ==> Lookup(a.disk, p) == if p == up.target then NewFile(up) else Lookup(w.disk, p)))
  {
    hide IsCover, Ready, Acceptable, Run, InstallOps, UploadOps, InUploads, CommittedDb, Resolvable, Given, Orderly, LoadStage, Clashes, Replaced;
    ReadyIsResolvable(w, up);
    if Acceptable(w, up) {
      var ops := InstallOps(w, up);
      assert ops[..|ops|] == ops;
      InstallLength(w, up);
      var a := Anchor(w, up, fuse);
      if CommitTaken(w, up, fuse) {
        NoStageYet(w, up);
        Installing(w, up, |ops|);
        SealedOrderly(w, up, a);
        CommittedResolvable(w, up, a, p);
      } else {
        AnchorBefore(w, up, fuse, p);
      }
    }
  }

  lemma InstallLength(w: World, up: Upload)
    ensures 5 <= |InstallOps(w, up)| <= 6 && (StageOf(w, up).created <==> |InstallOps(w, up)| == 6)
    ensures Acceptable(w, up) ==> InstallOps(w, up) <= UploadOps(w, up)
  {
    hide Acceptable, FinalizePlan, Run, PrepareOps;
  }

  lemma AnchorBefore(w: World, up: Upload, fuse: int, p: Path)
    requires Ready(w, up) && Acceptable(w, up) && !CommitTaken(w, up, fuse)
    ensures var a := Anchor(w, up, fuse);
            && 0 <= fuse < |InstallOps(w, up)| && a == Run(InstallOps(w, up)[..fuse], w) && a.db == w.db
            && Resolvable(a) && Orderly(a)
            && (fuse < 4 ==> Alike(w, a)) && (fuse >= 4 ==> IsCover(up.target) && Sealed(w, up, a))
            && (!InUploads(p) ==> (if Given(a, p) then None else Lookup(a.disk, p)) == if Given(w, p) then None else Lookup(w.disk, p))
  {
    hide IsCover, Ready, Acceptable, Run, InstallOps, UploadOps, InUploads, Resolvable, Given, Orderly, LoadStage, Replaced;
    ReadyIsResolvable(w, up);
    InstallLength(w, up);
    NoStageYet(w, up);
    Installing(w, up, fuse);
    var a := Anchor(w, up, fuse);
    if fuse < 4 {
      AlikeResolvable(w, a, p);
    } else {
      SealedResolvable(w, up, a, p);
      SealedOrderly(w, up, a);
    }
    ResolvableIsOrderly(a);
  }

  /** After the commit the run goes on with finishing the stage. */
  lemma CommittedRun(w: World, up: Upload, fuse: int, again: int) returns (k: nat)
    requires Ready(w, up) && CommitTaken(w, up, fuse)
    ensures var a := Anchor(w, up, fuse);
            var plan := RecoverStagePlan(a, up.stage);
            plan == FinalizePlan(a, StageOf(w, up)) && k <= |plan.ops| && UploadRun(w, up, fuse, again) == Run(plan.ops[..k], a)
  {
    hide IsCover, Ready, Acceptable, Run, InstallOps, CommittedDb, Replaced, FinalizePlan, RollbackPlan, StageRoot, RecoverStagePlan, StageOf, Sealed;
    CommitIsAcceptable(w, up, fuse);
    InstallLength(w, up);
    var install := InstallOps(w, up);
    assert install[..|install|] == install;
    var a := Anchor(w, up, fuse);
    NoStageYet(w, up);
    Installing(w, up, |install|);
    SealedPlan(w, up, a);
    StageFacts(w, up);
    TokenIsFresh(w, up);
    k := Taken(fuse, |UploadOps(w, up)|) - |install|;
    RunSplit(install, FinalizePlan(a, StageOf(w, up)).ops, w, Taken(fuse, |UploadOps(w, up)|));
  }

  lemma TokenIsFresh(w: World, up: Upload)
    requires Ready(w, up)
    ensures up.token !in w.db.receipts
  {
    hide Resolvable, LoadStage;
  }

  /** Before the commit the run goes on with the undo. */
  lemma FailedRun(w: World, up: Upload, fuse: int, again: int) returns (k: nat)
    requires Ready(w, up) && Acceptable(w, up) && !CommitTaken(w, up, fuse)
    ensures var a := Anchor(w, up, fuse);
            var plan := RecoverStagePlan(a, up.stage);
            && (fuse < 4 ==> plan.ops == [RemoveAll(StageRoot(up.stage))]) && (fuse >= 4 ==> plan == RollbackPlan(a, StageOf(w, up)))
            && k == (if fuse == 0 then 0 else Taken(again, |plan.ops|)) && UploadRun(w, up, fuse, again) == Run(plan.ops[..k], a)
  {
    hide IsCover, Ready, Acceptable, Run, InstallOps, CommittedDb, Replaced, FinalizePlan, RollbackPlan, StageRoot, RecoverStagePlan, StageOf, Sealed, Resolvable, Orderly;
    InstallLength(w, up);
    AnchorBefore(w, up, fuse, []);
    var a := Anchor(w, up, fuse);
    RunSplit(InstallOps(w, up), FinalizePlan(Run(InstallOps(w, up), w), StageOf(w, up)).ops, w, fuse);
    if fuse < 4 {
      NoStageYet(w, up);
      MissingPlan(a, up.stage);
    } else {
      SealedPlan(w, up, a);
    }
    var ops := RecoverStagePlan(a, up.stage).ops;
    k := if fuse == 0 then 0 else Taken(again, |ops|);
    RunNone(a);
    assert ops[..0] == [];
  }

  /** From the anchor on, finishing or undoing the new stage is what recovery would do. */
  lemma RunIsTurn(w: World, up: Upload, fuse: int, again: int) returns (k: nat)
    requires Ready(w, up)
    ensures var a := Anchor(w, up, fuse);
            var ops := RecoverStagePlan(a, up.stage).ops;
            k <= |ops| && UploadRun(w, up, fuse, again) == Run(ops[..k], a)
  {
    hide Ready, Run, InstallOps, CommitTaken, RecoverStagePlan, Acceptable;
    if !Acceptable(w, up) {
      k := 0;
      RunNone(w);
      assert RecoverStagePlan(w, up.stage).ops[..0] == [];
    } else if CommitTaken(w, up, fuse) {
      k := CommittedRun(w, up, fuse, again);
    } else {
      k := FailedRun(w, up, fuse, again);
    }
  }

  lemma MissingPlan(w: World, name: string)
    requires LoadStage(w.disk, name).Missing?
    ensures RecoverStagePlan(w, name) == Plan([RemoveAll(StageRoot(name))], true)
  {
    hide StageRoot, LoadStage;
  }

  lemma SealedPlan(w: World, up: Upload, v: World)
    requires Ready(w, up) && Acceptable(w, up) && Sealed(w, up, v) && (v.db == w.db || v.db == CommittedDb(w, up))
    ensures RecoverStagePlan(v, up.stage) == if v.db == w.db then RollbackPlan(v, StageOf(w, up)) else FinalizePlan(v, StageOf(w, up))
  {
    hide IsCover, Acceptable, InUploads, Resolvable, Replaced, FinalizePlan, RollbackPlan, LoadStage, CommittedDb, StageRoot;
    StageFacts(w, up);
  }

  /** Wherever an installation stops, it has only moved on from its anchor. */
  lemma UploadMovesOn(w: World, up: Upload, fuse: int, again: int)
    requires Ready(w, up)
    ensures var u := UploadRun(w, up, fuse, again); Orderly(u) && Toward(Anchor(w, up, fuse), u)
  {
    hide *;
    var k := RunIsTurn(w, up, fuse, again);
    AnchorGives(w, up, fuse, []);
    ResolveOne(Anchor(w, up, fuse), up.stage, k);
    TurnMovesOn(Anchor(w, up, fuse), UploadRun(w, up, fuse, again), up.stage);
  }

  lemma TurnMovesOn(w: World, v: World, name: string)
    requires Turn(w, v, name)
    ensures Orderly(v) && Toward(w, v)
  {
    hide Orderly, Toward;
  }

  // --- The guarantee -------------------------------------------------------------------

  /** The target is made from a plain name, a digest and an extension; the file that waits in the workspace has this digest, and so has a file that is there already. */
  predicate WellSent(w: World, up: Upload, slug: string, digest: string, extension: string) {
    && IsManaged(up.target, slug, digest, extension) && !AllBlank(up.token)
    && |up.source| == 2 && up.source[0] == ".atri-cover-uploads" && Lookup(w.disk, up.source) == Some(File(digest))
    && (up.target in w.disk ==> Lookup(w.disk, up.target) == Some(File(digest)))
  }

  lemma AcceptableExactly(w: World, up: Upload)
    ensures Acceptable(w, up) <==> exists slug: string, digest: string, extension: string :: WellSent(w, up, slug, digest, extension)
  {
    hide IsCover, IsManaged, DigestOf, Trim, AllBlank;
    TrimBlank(up.token);
    CoverPathsExactly(up.target);
    if Acceptable(w, up) {
      var slug, digest, extension := CoverIsManaged(up.target);
      assert WellSent(w, up, slug, digest, extension);
    }
  }

  /** An installation that nothing interrupts succeeds exactly if file and target were well sent: the game shows the new cover then, and nobody else's row changes; if not, nothing changes at all, whatever is possible. */
  lemma UploadSucceedsExactly(w: World, up: Upload, fuse: int, again: int)
    requires Ready(w, up)
    ensures (exists slug: string, digest: string, extension: string :: WellSent(w, up, slug, digest, extension)) ==>
              var rows := UploadRun(w, up, -1, again).db;
              rows.covers == w.db.covers[up.game := CoverUrl(up.target, true)] && rows.games == w.db.games + {up.game} && rows.packages == w.db.packages
    ensures !(exists slug: string, digest: string, extension: string :: WellSent(w, up, slug, digest, extension)) ==> UploadRun(w, up, fuse, again) == w
  {
    hide Acceptable, WellSent, UploadOps, InstallOps, Executed, Ready, Orderly;
    AcceptableExactly(w, up);
    if Acceptable(w, up) {
      InstallLength(w, up);
      UploadMovesOn(w, up, -1, again);
      AnchorGives(w, up, -1, []);
      CommitRows(w, up);
    }
  }

  lemma CommitRows(w: World, up: Upload)
    ensures var rows := CommittedDb(w, up);
            rows.covers == w.db.covers[up.game := CoverUrl(up.target, true)] && rows.games == w.db.games + {up.game} && rows.packages == w.db.packages
  {
    hide Replaced;
  }

  /** A crash or a failing step anywhere, undone as far as possible, any number of recoveries cut short, then one that completes: before the commit all files and rows are as they were; after it the new file is in place, and the old one is gone exactly if no other game shows it. In either case the files that leftover stages give up are gone too, under the rows of the time, and nothing else has changed. */
  lemma CoverSurvives(w: World, up: Upload, fuse: int, again: int, attempts: seq<Attempt>, names: seq<string>, p: Path)
    requires Ready(w, up) && (CommitTaken(w, up, fuse) ==> !Clashes(w, up))
    requires Listed(UploadRun(w, up, fuse, again), names) && !InUploads(p)
    ensures var last := AfterAttempts(UploadRun(w, up, fuse, again), attempts);
            var final := Run(RecoverOps(last, names), last);
            && RecoverSound(last, names) && (forall n: string :: ManifestPath(n) !in final.disk)
            && (!CommitTaken(w, up, fuse) ==>
                  && final.db == w.db.(receipts := final.db.receipts)
                  && Lookup(final.disk, p) == if Given(w, p) then None else Lookup(w.disk, p))
            && (CommitTaken(w, up, fuse) ==>
                  && final.db.games == w.db.games + {up.game} && final.db.packages == w.db.packages
                  && final.db.covers == w.db.covers[up.game := CoverUrl(up.target, true)]
                  && Lookup(final.disk, p) ==
                       if p == up.target then Some(File(DigestOf(up.target)))
                       else if up.game in w.db.covers && w.db.covers[up.game] == CoverUrl(p, true) && IsCover(p) && (forall g | g in w.db.covers && g != up.game :: w.db.covers[g].path != p) then None
                       else if Given(Afterwards(w, up), p) then None
                       else Lookup(w.disk, p))
  {
    hide IsCover, Ready, Run, UploadRun, RecoverOps, InUploads, CommitTaken, Given, Listed, Orderly, Toward, AfterAttempts, Resolvable, Anchor, Clashes, CommittedDb, Replaced, Acceptable;
    var a, u := Anchor(w, up, fuse), UploadRun(w, up, fuse, again);
    var last := AfterAttempts(u, attempts);
    UploadMovesOn(w, up, fuse, again);
    AnchorGives(w, up, fuse, p);
    AttemptsMoveOn(u, attempts);
    TowardThen(a, u, last);
    ListedLater(u, last, names);
    SettledFrom(a, last, names, p);
    if CommitTaken(w, up, fuse) {
      CommitChanges(w, up);
      CommitIsAcceptable(w, up, fuse);
      TargetGiven(w, up);
      StageFacts(w, up);
      ReplacedMeans(w, up, p);
    }
  }

  lemma CommitIsAcceptable(w: World, up: Upload, fuse: int)
    requires CommitTaken(w, up, fuse)
    ensures Acceptable(w, up)
  {
  }

  lemma ReplacedMeans(w: World, up: Upload, p: Path)
    ensures p != up.target ==>
              (Some(p) == Replaced(w, up) <==> up.game in w.db.covers && w.db.covers[up.game] == CoverUrl(p, true) && IsCover(p) && forall g | g in w.db.covers && g != up.game :: w.db.covers[g].path != p)
  {
    hide IsCover;
  }

  // --- Files that games show -----------------------------------------------------------

  /** A leftover stage threatens a file that a game still shows after the commit. */
  ghost predicate StillThreatens(w: World, up: Upload, name: string) {
    Threatens(w, name) && Referenced(CommittedDb(w, up), LoadStage(w.disk, name).stage.target)
  }

  lemma CommittedThreat(w: World, up: Upload, fuse: int, name: string)
    requires Ready(w, up) && CommitTaken(w, up, fuse)
    ensures Threatens(Anchor(w, up, fuse), name) <==> ClashesWith(w.disk, w.db, up, name) || StillThreatens(w, up, name)
  {
    hide IsCover, Ready, Run, InUploads, LoadStage, Acceptable, InstallOps, UploadOps, Replaced, Referenced, StageOf, CommittedDb, Resolvable;
    CommitIsAcceptable(w, up, fuse);
    StageFacts(w, up);
    NoStageYet(w, up);
    var a := Anchor(w, up, fuse);
    var ops := InstallOps(w, up);
    assert ops[..|ops|] == ops;
    InstallLength(w, up);
    Installing(w, up, |ops|);
    if name != up.stage && LoadStage(w.disk, name).Loaded? {
      var target := LoadStage(w.disk, name).stage.target;
      OtherReceipt(w, up, name);
      ShownAfter(w, up, target);
      TargetOutside(w, name);
      assert target in a.disk <==> Lookup(a.disk, target).Some?;
      assert target in w.disk <==> Lookup(w.disk, target).Some?;
    } else if name == up.stage {
      NewStageCommitted(w, up, a);
    }
  }

  lemma NewStageCommitted(w: World, up: Upload, v: World)
    requires Acceptable(w, up) && Sealed(w, up, v) && v.db == CommittedDb(w, up)
    ensures !Threatens(v, up.stage)
  {
    hide IsCover, Acceptable, InUploads, LoadStage, CommittedDb, Replaced, Referenced;
    StageFacts(w, up);
  }

  /** Once an upload is committed, a complete recovery takes a file that a game shows exactly if a stage was left over that was never committed and clashes with the upload or threatened a shown file already. */
  lemma UploadLosesExactly(w: World, up: Upload, fuse: int, again: int, attempts: seq<Attempt>, names: seq<string>)
    requires Ready(w, up) && CommitTaken(w, up, fuse) && Listed(UploadRun(w, up, fuse, again), names)
    ensures var last := AfterAttempts(UploadRun(w, up, fuse, again), attempts);
            LosesShown(Anchor(w, up, fuse), Run(RecoverOps(last, names), last)) <==> Clashes(w, up) || exists n: string :: StillThreatens(w, up, n)
  {
    hide IsCover, Ready, Run, UploadRun, RecoverOps, InUploads, CommitTaken, Listed, Orderly, Toward, AfterAttempts, Anchor, StillThreatens, Threatens, ClashesWith;
    var a, u := Anchor(w, up, fuse), UploadRun(w, up, fuse, again);
    var last := AfterAttempts(u, attempts);
    UploadMovesOn(w, up, fuse, again);
    AttemptsMoveOn(u, attempts);
    TowardThen(a, u, last);
    ListedLater(u, last, names);
    LosesFrom(a, last, names);
    forall n: string
      ensures Threatens(a, n) <==> ClashesWith(w.disk, w.db, up, n) || StillThreatens(w, up, n)
    {
      CommittedThreat(w, up, fuse, n);
    }
  }

  lemma CreatedMeans(w: World, up: Upload)
    ensures StageOf(w, up).created <==> Lookup(w.disk, up.target) == None
    ensures StageOf(w, up).target == up.target && StageOf(w, up).name == up.stage
  {
  }

  lemma SealedUndone(w: World, up: Upload, v: World)
    requires Ready(w, up) && Acceptable(w, up) && Sealed(w, up, v) && v.db == w.db
    ensures Alike(w, Run(RollbackPlan(v, StageOf(w, up)).ops, v))
  {
    hide IsCover, Run, InUploads, LoadStage, Acceptable, StageOf, RollbackPlan, StageRoot, ManifestPath, Ready, Honest, Orderly;
    var u := Run(RollbackPlan(v, StageOf(w, up)).ops, v);
    StageFacts(w, up);
    SealedOrderly(w, up, v);
    OrderlyIsHonest(v);
    NoStageYet(w, up);
    NewTarget(w, up);
    CreatedMeans(w, up);
    forall p: Path | !InUploads(p)
      ensures Lookup(u.disk, p) == Lookup(w.disk, p)
    {
      RollbackEffect(v, StageOf(w, up), p);
      StagesApart(up.stage, up.stage, p);
    }
    RollbackEffect(v, StageOf(w, up), []);
    forall n: string
      ensures LoadStage(u.disk, n) == LoadStage(w.disk, n)
    {
      AcceptableTarget(w, up);
      CoversApart(up.target, n);
      StagesApart(n, up.stage, ManifestPath(n));
      StagesApart(n, n, ManifestPath(n));
      RollbackEffect(v, StageOf(w, up), ManifestPath(n));
      if n == up.stage {
        MissingIsAbsent(u.disk, n);
      } else {
        LoadDepends(u.disk, v.disk, n);
      }
    }
  }

  /** An installation that fails before its commit and can finish undoing itself leaves all rows, all files outside the workspace and all other stages as they were. */
  lemma FailedUploadIsUndone(w: World, up: Upload, fuse: int, again: int)
    requires Ready(w, up) && !CommitTaken(w, up, fuse) && again < 0
    ensures Alike(w, UploadRun(w, up, fuse, again))
  {
    hide IsCover, Ready, Run, InUploads, LoadStage, Acceptable, InstallOps, UploadOps, Replaced, Referenced, StageOf, Resolvable, RecoverStagePlan, RollbackPlan, CommitTaken, StageRoot;
    if Acceptable(w, up) {
      var k := FailedRun(w, up, fuse, again);
      var a := Anchor(w, up, fuse);
      var ops := RecoverStagePlan(a, up.stage).ops;
      assert ops[..|ops|] == ops;
      AnchorBefore(w, up, fuse, []);
      if fuse == 0 {
        assert ops[..0] == [];
        RunNone(a);
      } else if fuse < 4 {
        RunOne(RemoveAll(StageRoot(up.stage)), a);
        StageLeaves(a, up.stage);
        NoStageYet(w, up);
      } else {
        SealedUndone(w, up, a);
      }
    }
  }
}
