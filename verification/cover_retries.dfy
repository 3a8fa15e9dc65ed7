/** Two uploads after each other: when the leftover of the first makes recovery take the cover of the second. */
module CoverRetries {
  import opened Wrappers
  import opened Storage
  import opened Text
  import opened GameCovers
  import opened CoverRecovery
  import opened CoverUploads

  /** Every stage that is left over was committed. */
  ghost predicate Ordinary(w: World) {
    forall n: string | LoadStage(w.disk, n).Loaded? :: Settled(w, n)
  }

  /** The cover files that games show are there. */
  ghost predicate AllThere(w: World) {
    forall p: Path | IsCover(p) && Referenced(w.db, p) :: p in w.disk
  }

  /** The upload brings a file that was not there, fails between its manifest and its commit, and the undo fails before it has dropped the stage. */
  predicate UndoCutShort(w: World, up: Upload, fuse: int, again: int) {
    Acceptable(w, up) && up.target !in w.disk && ((fuse == 4 && again == 0) || (fuse == 5 && 0 <= again <= 1))
  }

  /** A stage that was never committed and says it brought its target. */
  predicate Loose(w: World, name: string) {
    LoadStage(w.disk, name).Loaded? && !Settled(w, name) && LoadStage(w.disk, name).stage.created
  }

  lemma NoClash(w: World, up: Upload)
    requires Ordinary(w)
    ensures !Clashes(w, up) && forall n: string :: !Threatens(w, n)
  {
    hide LoadStage, Referenced;
    forall n: string
      ensures !ClashesWith(w.disk, w.db, up, n) && !Threatens(w, n)
    {
      assert LoadStage(w.disk, n).Loaded? ==> Settled(w, n);
    }
  }

  // --- What the first upload leaves ----------------------------------------------------

  /** Stages left over from before are committed still, or gone. */
  lemma OthersStaySettled(w: World, up: Upload, fuse: int, again: int, name: string)
    requires Ready(w, up) && Ordinary(w) && name != up.stage
    ensures !Loose(UploadRun(w, up, fuse, again), name)
  {
    hide LoadStage, Ready, Run, UploadRun, Toward, Orderly, RecoverStagePlan, Anchor, CommitTaken, Gives;
    var a := Anchor(w, up, fuse);
    var k := RunIsTurn(w, up, fuse, again);
    AnchorGives(w, up, fuse, []);
    ResolveOne(a, up.stage, k);
    assert SameStage(a, UploadRun(w, up, fuse, again), name);
    AnchorStages(w, up, fuse, name);
    if LoadStage(a.disk, name).Loaded? {
      OtherReceipt(w, up, name);
    }
  }

  lemma AnchorStages(w: World, up: Upload, fuse: int, name: string)
    requires Ready(w, up)
    ensures var a := Anchor(w, up, fuse);
            && (name != up.stage ==> LoadStage(a.disk, name) == LoadStage(w.disk, name))
            && (LoadStage(a.disk, up.stage).Loaded? ==> Acceptable(w, up) && LoadStage(a.disk, up.stage).stage == StageOf(w, up))
            && a.db == if CommitTaken(w, up, fuse) then CommittedDb(w, up) else w.db
  {
    hide LoadStage, Ready, Run, InstallOps, UploadOps, StageOf, CommittedDb, Acceptable, IsCover;
    NoStageYet(w, up);
    if Acceptable(w, up) {
      InstallLength(w, up);
      var ops := InstallOps(w, up);
      assert ops[..|ops|] == ops;
      Installing(w, up, if CommitTaken(w, up, fuse) then |ops| else Taken(fuse, |ops|));
    }
  }

  /** How many steps undoing a sealed stage takes. */
  lemma UndoLength(w: World, up: Upload, v: World)
    requires Ready(w, up) && Acceptable(w, up) && Sealed(w, up, v) && v.db == w.db
    ensures var files := if up.target !in w.disk && up.target in v.disk then [up.target] else [];
            FilesOf(v, up.stage) == files && |RecoverStagePlan(v, up.stage).ops| == |files| + 1
  {
    hide LoadStage, Resolvable, IsCover, Acceptable, Replaced, RecoverStagePlan, StageRoot, InUploads, Deletes;
    SealedOrderly(w, up, v);
    OrderlyIsHonest(v);
    DirectoryPlan(v, up.stage);
    TokenIsFresh(w, up);
  }

  /** The new stage is left over uncommitted exactly if its undo was cut short. */
  lemma LooseStage(w: World, up: Upload, fuse: int, again: int)
    requires Ready(w, up)
    ensures var u := UploadRun(w, up, fuse, again);
            Loose(u, up.stage) <==> UndoCutShort(w, up, fuse, again)
    ensures UndoCutShort(w, up, fuse, again) ==> !CommitTaken(w, up, fuse)
  {
    hide LoadStage, Ready, Run, Toward, Orderly, RecoverStagePlan, Gives, Acceptable, InstallOps, UploadOps, UploadRun, Anchor, FilesOf, Good;
    var a, u := Anchor(w, up, fuse), UploadRun(w, up, fuse, again);
    AnchorGives(w, up, fuse, []);
    AnchorStages(w, up, fuse, up.stage);
    InstallLength(w, up);
    if CommitTaken(w, up, fuse) {
      var k := CommittedRun(w, up, fuse, again);
      ResolveOne(a, up.stage, k);
      TurnKeeps(a, u, up.stage);
      CommittedIsSettled(w, up, a);
      CommitIsLate(w, up, fuse);
    } else if Acceptable(w, up) {
      LooseAfterFailure(w, up, fuse, again);
    } else {
      NoStageYet(w, up);
      NotAcceptable(w, up, fuse, again);
    }
  }

  lemma NotAcceptable(w: World, up: Upload, fuse: int, again: int)
    requires !Acceptable(w, up)
    ensures UploadRun(w, up, fuse, again) == w
  {
  }

  lemma CommitIsLate(w: World, up: Upload, fuse: int)
    requires CommitTaken(w, up, fuse)
    ensures fuse < 0 || fuse >= |InstallOps(w, up)|
  {
    hide Acceptable, InstallOps;
  }

  lemma TurnKeeps(w: World, v: World, name: string)
    requires Turn(w, v, name)
    ensures StageKept(w, v, name)
  {
    hide Orderly, LoadStage, Gives;
  }

  lemma CommittedIsSettled(w: World, up: Upload, a: World)
    requires a.db == CommittedDb(w, up) && (LoadStage(a.disk, up.stage).Loaded? ==> LoadStage(a.disk, up.stage).stage == StageOf(w, up))
    ensures LoadStage(a.disk, up.stage).Loaded? ==> Settled(a, up.stage)
  {
    hide LoadStage, ReceiptOf;
  }

  lemma LooseAfterFailure(w: World, up: Upload, fuse: int, again: int)
    requires Ready(w, up) && Acceptable(w, up) && !CommitTaken(w, up, fuse)
    ensures Loose(UploadRun(w, up, fuse, again), up.stage) <==> UndoCutShort(w, up, fuse, again)
  {
    hide LoadStage, Ready, Run, Toward, Orderly, RecoverStagePlan, Gives, Acceptable, InstallOps, UploadOps, UploadRun, Anchor, FilesOf, Good, CommitTaken, IsCover, Sealed, StageRoot, RollbackPlan;
    var a, u := Anchor(w, up, fuse), UploadRun(w, up, fuse, again);
    var k := FailedRun(w, up, fuse, again);
    AnchorBefore(w, up, fuse, []);
    InstallLength(w, up);
    NoStageYet(w, up);
    Installing(w, up, fuse);
    ResolveOne(a, up.stage, k);
    TurnKeeps(a, u, up.stage);
    CreatedMeans(w, up);
    if fuse < 4 {
      NoStageYet(w, up);
    } else {
      UndoLength(w, up, a);
      ResolvableAt(a, up.stage);
      SealedIsLoose(w, up, a);
      assert up.target in a.disk <==> Lookup(a.disk, up.target).Some?;
      assert up.target in w.disk <==> Lookup(w.disk, up.target).Some?;
    }
  }

  lemma SealedIsLoose(w: World, up: Upload, v: World)
    requires Ready(w, up) && Acceptable(w, up) && Sealed(w, up, v) && v.db == w.db
    ensures Loose(v, up.stage) <==> up.target !in w.disk
  {
    hide LoadStage, Resolvable, Acceptable, Replaced;
  }

  // --- The second upload ---------------------------------------------------------------

  lemma LooseMeans(w: World, up: Upload, name: string)
    ensures ClashesWith(w.disk, w.db, up, name) <==> Loose(w, name) && LoadStage(w.disk, name).stage.target == up.target
    ensures Threatens(w, name) ==> Loose(w, name) && Referenced(w.db, LoadStage(w.disk, name).stage.target)
  {
    hide LoadStage, Referenced;
  }

  /** The stage that is left over is the first upload's, and the rows are as they were. */
  lemma LeftOver(w: World, up: Upload, fuse: int, again: int)
    requires Ready(w, up) && UndoCutShort(w, up, fuse, again)
    ensures var u := UploadRun(w, up, fuse, again);
            LoadStage(u.disk, up.stage) == Loaded(StageOf(w, up)) && u.db.covers == w.db.covers
  {
    hide LoadStage, Ready, Run, Orderly, RecoverStagePlan, Gives, Acceptable, UploadRun, Anchor, CommitTaken, Given;
    LooseStage(w, up, fuse, again);
    var a, u := Anchor(w, up, fuse), UploadRun(w, up, fuse, again);
    AnchorStages(w, up, fuse, up.stage);
    UploadMovesOn(w, up, fuse, again);
    assert StageKept(a, u, up.stage);
  }

  /** Two uploads of any outcome after each other, the second one committed, with all shown covers there and all earlier leftovers committed: recovery takes a file that a game shows exactly if the undo of the first upload was cut short and both uploads bring the same file. */
  lemma RetryLosesExactly(w: World, one: Upload, fuse: int, again: int, two: Upload, fuse': int, again': int, attempts: seq<Attempt>, names: seq<string>)
    requires Ready(w, one) && Ordinary(w) && AllThere(w)
    requires var u := UploadRun(w, one, fuse, again);
             Ready(u, two) && CommitTaken(u, two, fuse') && Listed(UploadRun(u, two, fuse', again'), names)
    ensures var u := UploadRun(w, one, fuse, again);
            var last := AfterAttempts(UploadRun(u, two, fuse', again'), attempts);
            LosesShown(Anchor(u, two, fuse'), Run(RecoverOps(last, names), last)) <==> UndoCutShort(w, one, fuse, again) && one.target == two.target
  {
    hide LoadStage, Ready, Run, UndoCutShort, UploadRun, Anchor, CommitTaken, Referenced, Threatens, ClashesWith, Loose, StageOf, CommittedDb, RecoverOps, AfterAttempts, Listed;
    var u := UploadRun(w, one, fuse, again);
    UploadLosesExactly(u, two, fuse', again', attempts, names);
    LooseStage(w, one, fuse, again);
    if UndoCutShort(w, one, fuse, again) {
      LeftOver(w, one, fuse, again);
      CreatedMeans(w, one);
      LooseMeans(u, two, one.stage);
    }
    forall n: string
      ensures ClashesWith(u.disk, u.db, two, n) ==> UndoCutShort(w, one, fuse, again) && one.target == two.target
      ensures StillThreatens(u, two, n) ==> UndoCutShort(w, one, fuse, again) && one.target == two.target
    {
      LooseMeans(u, two, n);
      if n != one.stage {
        OthersStaySettled(w, one, fuse, again, n);
      } else if UndoCutShort(w, one, fuse, again) {
        NotShownBefore(w, one, fuse, again);
        SameReferred(w.db, u.db, one.target);
      }
    }
  }

  lemma NotShownBefore(w: World, up: Upload, fuse: int, again: int)
    requires AllThere(w) && UndoCutShort(w, up, fuse, again)
    ensures !Referenced(w.db, up.target)
  {
    hide Referenced, IsCover;
  }

  // --- The second upload is possible ---------------------------------------------------

  /** The step puts something at or below the path. */
  predicate Fills(op: Op, root: Path) {
    match op
    case Write(path, _) => root <= path
    case Move(_, destination) => root <= destination
    case MoveInto(_, directory) => root <= directory
    case _ => false
  }

  lemma {:induction false} StaysEmpty(ops: seq<Op>, w: World, stage: string)
    requires Unused(w.disk, stage) && forall op | op in ops :: !Fills(op, StageRoot(stage))
    ensures Unused(Run(ops, w).disk, stage)
    decreases |ops|
  {
    if ops != [] {
      assert ops[0] in ops;
      OneStepEmpty(ops[0], w, stage);
      StaysEmpty(ops[1..], Apply(ops[0], w), stage);
    }
  }

  lemma OneStepEmpty(op: Op, w: World, stage: string)
    requires Unused(w.disk, stage) && !Fills(op, StageRoot(stage))
    ensures Unused(Apply(op, w).disk, stage)
  {
  }

  lemma OtherRoot(a: string, b: string)
    requires a != b
    ensures !(StageRoot(b) <= StageRoot(a)) && !(StageRoot(b) <= IncomingPath(a)) && !(StageRoot(b) <= TemporaryPath(a)) && !(StageRoot(b) <= ManifestPath(a))
  {
    hide StageRoot, IncomingPath, TemporaryPath, ManifestPath;
    StageFilesApart(a);
    StagesApart(a, b, StageRoot(a));
    StagesApart(a, b, IncomingPath(a));
    StagesApart(a, b, TemporaryPath(a));
    StagesApart(a, b, ManifestPath(a));
  }

  lemma InstallFillsOwn(w: World, up: Upload, stage: string)
    requires IsCover(up.target) && up.stage != stage
    ensures forall op | op in InstallOps(w, up) :: !Fills(op, StageRoot(stage))
  {
    hide IsCover, StageRoot, IncomingPath, TemporaryPath, ManifestPath, ManifestOf, ReceiptOf, StageOf;
    OtherRoot(up.stage, stage);
    CoversApart(up.target, stage);
  }

  lemma TurnFillsNothing(w: World, name: string, root: Path)
    requires Honest(w.disk)
    ensures forall op | op in RecoverStagePlan(w, name).ops :: !Fills(op, root)
  {
    hide FilesOf, StageRoot, LoadStage, Good, Deletes, RecoverStagePlan, Honest;
    DirectoryPlan(w, name);
    DeletesUpTo2(FilesOf(w, name));
  }

  lemma RunStaysEmpty(w: World, up: Upload, fuse: int, again: int, stage: string)
    requires Ready(w, up) && up.stage != stage && Unused(w.disk, stage)
    ensures Unused(UploadRun(w, up, fuse, again).disk, stage)
  {
    hide StageRoot, Ready, Run, UploadRun, InstallOps, RecoverStagePlan, Fills, Unused, Acceptable, Orderly, CommitTaken;
    var a := Anchor(w, up, fuse);
    if Acceptable(w, up) {
      AcceptableTarget(w, up);
      InstallFillsOwn(w, up, stage);
      StaysEmpty(InstallOps(w, up), w, stage);
      StaysEmpty(InstallOps(w, up)[..Taken(fuse, |InstallOps(w, up)|)], w, stage);
    }
    AnchorGives(w, up, fuse, []);
    OrderlyIsHonest(a);
    TurnFillsNothing(a, up.stage, StageRoot(stage));
    var k := RunIsTurn(w, up, fuse, again);
    StaysEmpty(RecoverStagePlan(a, up.stage).ops[..k], a, stage);
  }

  /** After a first upload of any outcome a second one with other names can begin. */
  lemma ReadyAgain(w: World, one: Upload, fuse: int, again: int, two: Upload)
    requires Ready(w, one) && Ready(w, two) && Ordinary(w) && one.stage != two.stage && one.token != two.token
    ensures Ready(UploadRun(w, one, fuse, again), two)
  {
    hide StageRoot, Resolvable, Run, UploadRun, LoadStage, CommitTaken, Anchor, StageOf, CommittedDb, Toward, Orderly;
    var a, u := Anchor(w, one, fuse), UploadRun(w, one, fuse, again);
    AnchorGives(w, one, fuse, []);
    NoClash(w, one);
    UploadMovesOn(w, one, fuse, again);
    ResolvableKept(a, u);
    RunStaysEmpty(w, one, fuse, again, two.stage);
    CommitChanges(w, one);
    TowardReceipts(a, u, two.token);
    AnchorStages(w, one, fuse, one.stage);
    CreatedMeans(w, one);
    forall n: string | LoadStage(u.disk, n).Loaded?
      ensures LoadStage(u.disk, n).stage.token != two.token
    {
      TowardKeeps(a, u, n);
      AnchorStages(w, one, fuse, n);
      TokenOfStage(w, one);
    }
  }

  lemma TowardReceipts(w: World, v: World, token: string)
    requires Toward(w, v) && token !in w.db.receipts
    ensures token !in v.db.receipts
  {
    hide StageKept, Given;
  }

  lemma TokenOfStage(w: World, up: Upload)
    ensures StageOf(w, up).token == up.token
  {
  }

  // --- A run that loses a cover --------------------------------------------------------

  /** The first upload is cut right before its commit and its undo after the file is deleted. */
  lemma FirstIsCut(w: World, one: Upload, p: Path)
    requires Ready(w, one) && Acceptable(w, one) && one.target !in w.disk
    ensures |UploadOps(w, one)| > 5 && |InstallOps(w, one)| == 6 && !CommitTaken(w, one, 5)
    ensures var c := Run(UploadOps(w, one)[..5], w);
            && c == Anchor(w, one, 5) && c.db == w.db && IsCover(one.target) && Sealed(w, one, c)
            && Lookup(c.disk, p) == if p == one.target then NewFile(one) else if p == IncomingPath(one.stage) then None else PreparedAt(w, one, 4, p)
  {
    hide LoadStage, Ready, Acceptable, PrepareOps, FinalizePlan, IsCover, IncomingPath, Sealed, PreparedAt, Run, StageRoot, InUploads;
    InstallLength(w, one);
    CreatedMeans(w, one);
    var install, prepare, move, commit := InstallOps(w, one), PrepareOps(w, one), ActivateOps(w, one), [CommitOp(w, one)];
    assert UploadOps(w, one)[..5] == install[..5];
    NoStageYet(w, one);
    Installing(w, one, 5);
    PrepareLength(w, one);
    RunSplit(prepare, move + commit, w, 5);
    assert (move + commit)[..1] == [Move(IncomingPath(one.stage), one.target)];
    RunOne(Move(IncomingPath(one.stage), one.target), Run(prepare, w));
    Prepared(w, one, 4, p);
    WhilePreparing(w, one, 4);
    StageFilesApart(one.stage);
    StageFacts(w, one);
  }

  lemma UndoOfFirst(w: World, one: Upload, c: World)
    requires Ready(w, one) && Acceptable(w, one) && Sealed(w, one, c) && c.db == w.db && one.target !in w.disk && Lookup(c.disk, one.target) == NewFile(one)
    ensures RollbackPlan(c, StageOf(w, one)) == Plan([Delete(one.target), RemoveAll(StageRoot(one.stage))], true)
  {
    hide LoadStage, Ready, Acceptable, IsCover, StageRoot, InUploads, Honest, Trim;
    SealedOrderly(w, one, c);
    OrderlyIsHonest(c);
    StageFacts(w, one);
    RollbackShape(c, StageOf(w, one));
  }

  /** A second upload of the same file is accepted in between. */
  lemma SecondIsAccepted(w: World, one: Upload, two: Upload, c: World)
    requires Ready(w, one) && Acceptable(w, one) && Acceptable(w, two) && one.source != two.source && one.target == two.target && one.target !in w.disk
    requires |UploadOps(w, one)| > 5 && c == Run(UploadOps(w, one)[..5], w)
    ensures Acceptable(Apply(Delete(one.target), c), two)
  {
    hide LoadStage, Ready, IsCover, IncomingPath, Sealed, Run, InstallOps, UploadOps, CommitTaken, TemporaryPath, ManifestPath, Trim, InUploads, Anchor;
    FirstIsCut(w, one, two.source);
    StageFilesApart(one.stage);
    CoversApart(one.target, one.stage);
    NotTheRoot(w, one, two.source);
  }

  lemma NotTheRoot(w: World, up: Upload, p: Path)
    requires Ready(w, up) && p in w.disk
    ensures p != StageRoot(up.stage)
  {
    hide Resolvable, LoadStage;
  }

  /** The upload of a cover is cut short before its commit and its undo after one step; the same file is uploaded again and all goes well; the next recovery undoes what the first upload left, and with it the cover that the game shows. */
  lemma RetryLosesCover(w: World, one: Upload, two: Upload, names: seq<string>)
    requires Ready(w, one) && Ready(w, two) && Ordinary(w) && one.stage != two.stage && one.token != two.token
    requires Acceptable(w, one) && Acceptable(w, two) && one.source != two.source && one.target == two.target && one.target !in w.disk
    ensures var c := Executed(UploadOps(w, one), w, 5);
            var u := Executed(RollbackPlan(c, StageOf(w, one)).ops, c, 1);
            var v := Run(UploadOps(u, two), u);
            && |UploadOps(w, one)| > 5 && !CommitTaken(w, one, 5) && |RollbackPlan(c, StageOf(w, one)).ops| == 2
            && Acceptable(u, two) && two.game in v.db.covers && v.db.covers[two.game] == CoverUrl(two.target, true) && Verified(v.disk, two.target)
            && (Listed(v, names) ==> LosesShown(v, Run(RecoverOps(v, names), v)) && two.target !in Run(RecoverOps(v, names), v).disk)
  {
    hide LoadStage, Ready, IsCover, Acceptable, StageRoot, Run, InstallOps, UploadOps, RollbackPlan, Sealed, StageOf, UploadRun, Anchor, Loose, CommitTaken, Verified, Listed, RecoverOps, PreparedAt, InUploads, Ordinary;
    FirstIsCut(w, one, one.target);
    var c := Run(UploadOps(w, one)[..5], w);
    UndoOfFirst(w, one, c);
    var undo := RollbackPlan(c, StageOf(w, one)).ops;
    var u := Run(undo[..1], c);
    RunOne(Delete(one.target), c);
    assert undo[..1] == [Delete(one.target)];
    SecondIsAccepted(w, one, two, c);
    FirstRunIs(w, one, c, u);
    ReadyAgain(w, one, 5, 1, two);
    SecondEnds(w, one, two, u);
    var v := Run(UploadOps(u, two), u);
    if Listed(v, names) {
      SecondIsLost(v, one.stage, two.target, names);
    }
  }

  lemma FirstRunIs(w: World, one: Upload, c: World, u: World)
    requires Ready(w, one) && Acceptable(w, one) && one.target !in w.disk
    requires |UploadOps(w, one)| > 5 && |InstallOps(w, one)| == 6 && c == Run(UploadOps(w, one)[..5], w)
    requires |RollbackPlan(c, StageOf(w, one)).ops| == 2 && u == Run(RollbackPlan(c, StageOf(w, one)).ops[..1], c)
    ensures u == UploadRun(w, one, 5, 1) && UndoCutShort(w, one, 5, 1) && !CommitTaken(w, one, 5)
  {
    hide LoadStage, Ready, Acceptable, Run, InstallOps, UploadOps, RollbackPlan, StageOf;
    assert Executed(UploadOps(w, one), w, 5) == c;
    assert Executed(RollbackPlan(c, StageOf(w, one)).ops, c, 1) == u;
  }

  /** After the second upload the game shows the file, which is there, and the stage of the first threatens it. */
  lemma SecondEnds(w: World, one: Upload, two: Upload, u: World)
    requires Ready(w, one) && UndoCutShort(w, one, 5, 1) && u == UploadRun(w, one, 5, 1) && Ready(u, two) && Acceptable(u, two)
    requires one.target == two.target && one.stage != two.stage
    ensures var v := Run(UploadOps(u, two), u);
            && Orderly(v) && Threatens(v, one.stage) && LoadStage(v.disk, one.stage).Loaded? && LoadStage(v.disk, one.stage).stage.target == two.target
            && two.game in v.db.covers && v.db.covers[two.game] == CoverUrl(two.target, true) && Verified(v.disk, two.target)
  {
    hide LoadStage, Ready, IsCover, Acceptable, Run, InstallOps, StageOf, UploadRun, Anchor, Loose, Verified, InUploads, RecoverStagePlan, ClashesWith, CommittedDb, Threatens, FinalizePlan, Referenced, Replaced, UndoCutShort;
    LooseStage(w, one, 5, 1);
    LeftOver(w, one, 5, 1);
    CreatedMeans(w, one);
    LooseMeans(u, two, one.stage);
    InstallLength(u, two);
    var ops := UploadOps(u, two);
    assert ops[..|ops|] == ops;
    CompleteRun(u, two);
    var a, v := Anchor(u, two, -1), Run(ops, u);
    CommittedThreat(u, two, -1, one.stage);
    var k := RunIsTurn(u, two, -1, 0);
    AnchorGives(u, two, -1, two.target);
    ResolveOne(a, two.stage, k);
    StageFacts(u, two);
    AnchorStages(u, two, -1, one.stage);
    NewTargetStays(u, two, a, v);
    CommitChanges(u, two);
    StillThreatened(a, v, one.stage, two.stage, two.target);
  }

  lemma CompleteRun(w: World, up: Upload)
    requires Acceptable(w, up)
    ensures CommitTaken(w, up, -1) && UploadRun(w, up, -1, 0) == Run(UploadOps(w, up), w)
  {
    hide Acceptable, Run, InstallOps;
    InstallLength(w, up);
    var ops := UploadOps(w, up);
    assert ops[..|ops|] == ops;
  }

  /** Finishing the new stage leaves the new file. */
  lemma NewTargetStays(w: World, up: Upload, a: World, v: World)
    requires Ready(w, up) && CommitTaken(w, up, -1) && a == Anchor(w, up, -1) && Turn(a, v, up.stage)
    ensures IsCover(up.target) && Lookup(v.disk, up.target) == NewFile(up) && Verified(v.disk, up.target) && v.db.covers == CommittedDb(w, up).covers
  {
    hide LoadStage, Ready, IsCover, Acceptable, Run, StageOf, InUploads, CommittedDb, Referenced, Replaced, Orderly, InstallOps, UploadOps, Gives, Given, Sealed;
    CommitIsAcceptable(w, up, -1);
    StageFacts(w, up);
    InstallLength(w, up);
    var ops := InstallOps(w, up);
    assert ops[..|ops|] == ops;
    NoStageYet(w, up);
    Installing(w, up, |ops|);
    CommittedGives(w, up, a);
  }

  lemma StillThreatened(a: World, v: World, name: string, other: string, target: Path)
    requires Turn(a, v, other) && name != other && Threatens(a, name) && LoadStage(a.disk, name).Loaded? && LoadStage(a.disk, name).stage.target == target
    requires target in v.disk
    ensures Threatens(v, name) && LoadStage(v.disk, name) == LoadStage(a.disk, name)
  {
    hide LoadStage, Orderly, Referenced, Gives, Given, InUploads;
    SameReferred(a.db, v.db, target);
    assert SameStage(a, v, name);
  }

  lemma SecondIsLost(v: World, name: string, target: Path, names: seq<string>)
    requires Orderly(v) && Threatens(v, name) && Listed(v, names) && LoadStage(v.disk, name).Loaded? && LoadStage(v.disk, name).stage.target == target
    ensures LosesShown(v, Run(RecoverOps(v, names), v)) && target !in Run(RecoverOps(v, names), v).disk
  {
    hide LoadStage, Orderly, Referenced, Run, RecoverOps, LosesShown, Threatens;
    ThreatIsGiven(v, name);
    RecoveryLosesExactly(v, names);
    Resolved(v, names, name, target);
  }

  // --- Such a run exists ---------------------------------------------------------------

  /** A digest, a workspace with two raw uploads of one image, and the two uploads. */
  function SomeDigest(): string {
    seq(64, i => 'a')
  }

  function SomeCover(): Path {
    ["covers", "lunar", "cover-" + SomeDigest() + ".webp"]
  }

  function SomeWorld(): World {
    World(map[[UPLOADS, "upload-1"] := File(SomeDigest()), [UPLOADS, "upload-2"] := File(SomeDigest())],
          Database({"g"}, map[], map[], map[]))
  }

  function SomeUpload(source: string, stage: string, token: string): Upload {
    Upload("g", [UPLOADS, source], SomeCover(), stage, token)
  }

  lemma SomeCoverIsOne()
    ensures IsCover(SomeCover()) && DigestOf(SomeCover()) == SomeDigest()
  {
    var name := "cover-" + SomeDigest() + ".webp";
    assert name[..6] == "cover-" && name[6..70] == SomeDigest() && name[70..] == ".webp";
    assert forall i | 6 <= i < 70 :: name[i] == SomeDigest()[i - 6];
    assert forall c | c in "lunar" :: PlainCharacter(c);
    assert name != "" && "lunar" != "." && "lunar" != "..";
  }

  lemma SomeStage(source: string, stage: string, token: string)
    requires source in ["upload-1", "upload-2"] && stage in ["install-1", "install-2"] && token in ["cover-1", "cover-2"]
    ensures Ready(SomeWorld(), SomeUpload(source, stage, token)) && Acceptable(SomeWorld(), SomeUpload(source, stage, token))
    ensures Ordinary(SomeWorld()) && SomeUpload(source, stage, token).target !in SomeWorld().disk
  {
    SomeCoverIsOne();
    var w := SomeWorld();
    forall n: string
      ensures ManifestPath(n) !in w.disk && LoadStage(w.disk, n).Missing?
    {
      assert |ManifestPath(n)| == 3;
    }
    assert |SomeCover()| == 3;
    assert stage != "upload-1" && stage != "upload-2" by {
      assert stage[0] == 'i';
    }
    forall p | p in w.disk
      ensures !(StageRoot(stage) <= p) && !IsCover(p)
    {
      assert p[1] != stage;
    }
    assert Trim(token) == token;
  }

  /** The uploads of such a run, which `RetryLosesCover` asks for, can be made on a disk that holds nothing else. */
  lemma RetryHappens()
    ensures var w, one, two := SomeWorld(), SomeUpload("upload-1", "install-1", "cover-1"), SomeUpload("upload-2", "install-2", "cover-2");
            && Ready(w, one) && Ready(w, two) && Ordinary(w) && AllThere(w) && one.stage != two.stage && one.token != two.token
            && Acceptable(w, one) && Acceptable(w, two) && one.source != two.source && one.target == two.target && one.target !in w.disk
  {
    hide Ready, Acceptable, Ordinary, IsCover, LoadStage;
    SomeStage("upload-1", "install-1", "cover-1");
    SomeStage("upload-2", "install-2", "cover-2");
  }
}
