/** Uploaded covers as the server handles them: a stage object, the installation itself and startup recovery. */
module CoverStages {
  import opened Storage
  import opened GameCovers
  import opened CoverUploads

  /** The steps of a plan, taken as far as possible; clean tells whether the plan ended without an error and every step was taken. */
  ghost predicate Followed(plan: Plan, w: World, fuse: int, v: World, left: int, clean: bool) {
    exists ok: bool :: Ran(plan.ops, w, fuse, v, left, ok) && clean == (ok && plan.ok)
  }

  lemma FollowedBy(plan: Plan, w: World, fuse: int, v: World, left: int, ok: bool)
    requires Ran(plan.ops, w, fuse, v, left, ok)
    ensures Followed(plan, w, fuse, v, left, ok && plan.ok)
  {
    hide Ran;
  }

  lemma FollowedNone(plan: Plan, w: World, fuse: int)
    requires plan.ops == []
    ensures Followed(plan, w, fuse, w, fuse, plan.ok)
  {
    RanNone(w, fuse);
  }

  /** A second plan that is made after the first was followed without an error. */
  lemma FollowedThen(a: Plan, b: Plan, late: Plan, w: World, fuse: int, v: World, mid: int, u: World, left: int, clean: bool)
    requires Followed(a, w, fuse, v, mid, true) && Followed(late, v, mid, u, left, clean)
    requires v == Run(a.ops, w) ==> late == b
    ensures Followed(Plan(a.ops + b.ops, b.ok), w, fuse, u, left, clean)
  {
    hide Run, Ran;
    var ok :| Ran(late.ops, v, mid, u, left, ok) && clean == (ok && late.ok);
    RanAll(a.ops, w, fuse, v, mid);
    RanThen(a.ops, b.ops, late.ops, w, fuse, v, mid, true, u, left, ok);
    FollowedBy(Plan(a.ops + b.ops, b.ok), w, fuse, u, left, ok);
  }

  /** A first plan that ends with an error, or a step that fails: what was to follow is not begun. */
  lemma FollowedStops(a: Plan, b: Plan, w: World, fuse: int, v: World, mid: int)
    requires Followed(a, w, fuse, v, mid, false)
    ensures Followed(if a.ok then Plan(a.ops + b.ops, b.ok) else a, w, fuse, v, mid, false)
  {
    hide Run, Ran;
    var ok :| Ran(a.ops, w, fuse, v, mid, ok) && !(ok && a.ok);
    if a.ok {
      RanStops(a.ops, b.ops, w, fuse, v, mid);
      FollowedBy(Plan(a.ops + b.ops, b.ok), w, fuse, v, mid, false);
    }
  }

  /** Deletes a cover file after checking its content. */
  method DeleteCover(machine: Machine, file: Path) returns (clean: bool)
    modifies machine
    ensures Followed(Deleting(old(machine.world.disk), file), old(machine.world), old(machine.fuse), machine.world, machine.fuse, clean)
  {
    hide Ran, Followed, Verified;
    ghost var w, fuse := machine.world, machine.fuse;
    var there, honest := file in machine.world.disk, Verified(machine.world.disk, file);
    var ok := DoIf(machine, there && honest, Delete(file));
    clean := ok && (there ==> honest);
    ghost var plan := Deleting(w.disk, file);
    assert plan.ops == if there && honest then [Delete(file)] else [];
    FollowedBy(plan, w, fuse, machine.world, machine.fuse, ok);
  }

  class CoverStage {
    const machine: Machine
    const stage: Stage

    constructor (machine: Machine, stage: Stage)
      ensures this.machine == machine && this.stage == stage
    {
      this.machine := machine;
      this.stage := stage;
    }

    /** Moves the new file into its place, unless that has happened already, and checks it. */
    method Activate() returns (clean: bool)
      modifies machine
      ensures Followed(ActivatePlan(old(machine.world), stage), old(machine.world), old(machine.fuse), machine.world, machine.fuse, clean)
    {
      hide Run, Ran, Followed, Verified, Apply;
      ghost var w, fuse := machine.world, machine.fuse;
      ghost var plan := ActivatePlan(w, stage);
      var incoming := IncomingPath(stage.name) in machine.world.disk;
      var installed := stage.target in machine.world.disk;
      if stage.created && incoming && !installed {
        var ok := DoIf(machine, true, Move(IncomingPath(stage.name), stage.target));
        var honest := Verified(machine.world.disk, stage.target);
        clean := ok && honest;
        FollowedBy(plan, w, fuse, machine.world, machine.fuse, ok);
        if ok {
          RanAll(plan.ops, w, fuse, machine.world, machine.fuse);
          RunOne(Move(IncomingPath(stage.name), stage.target), w);
        }
      } else {
        clean := (!stage.created || (!incoming && installed)) && Verified(machine.world.disk, stage.target);
        FollowedNone(plan, w, fuse);
      }
    }

    /** Takes the new file away again if this stage brought it, and then the stage. */
    method Rollback() returns (clean: bool)
      modifies machine
      ensures Followed(RollbackPlan(old(machine.world), stage), old(machine.world), old(machine.fuse), machine.world, machine.fuse, clean)
    {
      hide Run, Ran, Followed, Deleting, StageRoot;
      ghost var w, fuse := machine.world, machine.fuse;
      ghost var first := if stage.created then Deleting(w.disk, stage.target) else Plan([], true);
      clean := true;
      if stage.created {
        clean := DeleteCover(machine, stage.target);
      } else {
        FollowedNone(first, w, fuse);
      }
      ghost var v, mid := machine.world, machine.fuse;
      ghost var drop := Plan([RemoveAll(StageRoot(stage.name))], true);
      if !clean {
        FollowedStops(first, drop, w, fuse, v, mid);
        return;
      }
      CleanIsOk(first, w, fuse, v, mid);
      var ok := DoIf(machine, true, RemoveAll(StageRoot(stage.name)));
      FollowedBy(drop, v, mid, machine.world, machine.fuse, ok);
      FollowedThen(first, drop, drop, w, fuse, v, mid, machine.world, machine.fuse, ok);
      clean := ok;
    }

    /** Deletes what no game shows any more, then the stage and its receipt. */
    method Finalize() returns (clean: bool)
      modifies machine
      ensures Followed(FinalizePlan(old(machine.world), stage), old(machine.world), old(machine.fuse), machine.world, machine.fuse, clean)
    {
      hide Run, Ran, Followed, Deleting, StageRoot, TargetPlan, ReplacedPlan;
      ghost var w, fuse := machine.world, machine.fuse;
      var db := machine.world.db;
      if !Committed(db, stage) || db.receipts[stage.token].target != stage.target || db.receipts[stage.token].replaced != stage.replaced {
        FollowedNone(FinalizePlan(w, stage), w, fuse);
        return false;
      }
      ghost var first := TargetPlan(w, stage);
      clean := DeleteUnshown();
      ghost var v, mid := machine.world, machine.fuse;
      ghost var second := ReplacedPlan(Run(first.ops, w), stage);
      ghost var both := Plan(first.ops + second.ops, second.ok);
      ghost var drop := Plan([RemoveAll(StageRoot(stage.name)), DropReceipt(stage.token)], true);
      if !clean {
        FollowedStops(first, Plan(second.ops + if second.ok then drop.ops else [], second.ok), w, fuse, v, mid);
        assert first.ops + (second.ops + drop.ops) == first.ops + second.ops + drop.ops;
        assert first.ops + (second.ops + []) == first.ops + second.ops;
        return;
      }
      CleanIsOk(first, w, fuse, v, mid);
      clean := DeleteReplaced();
      FollowedThen(first, second, ReplacedPlan(v, stage), w, fuse, v, mid, machine.world, machine.fuse, clean);
      v, mid := machine.world, machine.fuse;
      if !clean {
        FollowedStops(both, drop, w, fuse, v, mid);
        return;
      }
      CleanIsOk(both, w, fuse, v, mid);
      var ok := DoAll(machine, [RemoveAll(StageRoot(stage.name)), DropReceipt(stage.token)]);
      FollowedBy(drop, v, mid, machine.world, machine.fuse, ok);
      FollowedThen(both, drop, drop, w, fuse, v, mid, machine.world, machine.fuse, ok);
      clean := ok;
    }

    /** Checks the new file if a game shows it, and deletes it if none does and this stage brought it. */
    method DeleteUnshown() returns (clean: bool)
      modifies machine
      ensures Followed(TargetPlan(old(machine.world), stage), old(machine.world), old(machine.fuse), machine.world, machine.fuse, clean)
    {
      hide Run, Ran, Followed, Deleting, Verified, Referenced;
      ghost var plan := TargetPlan(machine.world, stage);
      if Referenced(machine.world.db, stage.target) {
        clean := Verified(machine.world.disk, stage.target);
        FollowedNone(plan, machine.world, machine.fuse);
      } else if stage.created {
        clean := DeleteCover(machine, stage.target);
      } else {
        clean := true;
        FollowedNone(plan, machine.world, machine.fuse);
      }
    }

    /** Deletes the replaced file if no game shows it. */
    method DeleteReplaced() returns (clean: bool)
      modifies machine
      ensures Followed(ReplacedPlan(old(machine.world), stage), old(machine.world), old(machine.fuse), machine.world, machine.fuse, clean)
    {
      hide Run, Ran, Followed, Deleting, Verified, Referenced;
      ghost var plan := ReplacedPlan(machine.world, stage);
      if stage.replaced.Some? && !Referenced(machine.world.db, stage.replaced.value) {
        clean := DeleteCover(machine, stage.replaced.value);
      } else {
        clean := true;
        FollowedNone(plan, machine.world, machine.fuse);
      }
    }
  }

  lemma CleanIsOk(plan: Plan, w: World, fuse: int, v: World, left: int)
    requires Followed(plan, w, fuse, v, left, true)
    ensures plan.ok && v == Run(plan.ops, w)
  {
    hide Ran, Run;
    RanAll(plan.ops, w, fuse, v, left);
  }

  // --- Startup recovery ----------------------------------------------------------------

  /** Resolves one directory of the upload workspace. */
  method RecoverStage(machine: Machine, name: string) returns (clean: bool)
    modifies machine
    ensures Followed(RecoverStagePlan(old(machine.world), name), old(machine.world), old(machine.fuse), machine.world, machine.fuse, clean)
  {
    hide Run, Ran, Followed, LoadStage, StageRoot, FinalizePlan, RollbackPlan;
    ghost var w, fuse := machine.world, machine.fuse;
    match LoadStage(machine.world.disk, name) {
      case Missing =>
        clean := DoIf(machine, true, RemoveAll(StageRoot(name)));
        FollowedBy(RecoverStagePlan(w, name), w, fuse, machine.world, machine.fuse, clean);
      case Invalid =>
        clean := false;
        FollowedNone(RecoverStagePlan(w, name), w, fuse);
      case Loaded(st) =>
        var stage := new CoverStage(machine, st);
        if Committed(machine.world.db, st) {
          clean := stage.Finalize();
        } else {
          clean := stage.Rollback();
        }
    }
  }

  lemma RecoverUnfolds(w: World, names: seq<string>, i: nat)
    requires i < |names|
    ensures var first := RecoverStagePlan(w, names[i]);
            && RecoverOps(w, names[i..]) == first.ops + RecoverOps(Run(first.ops, w), names[i + 1..])
            && RecoverSound(w, names[i..]) == (first.ok && RecoverSound(Run(first.ops, w), names[i + 1..]))
  {
    hide RecoverStagePlan, Run;
    assert names[i..][1..] == names[i + 1..];
  }

  lemma NothingToRecover(w: World, names: seq<string>)
    ensures RecoverOps(w, names[|names|..]) == [] && RecoverSound(w, names[|names|..])
  {
  }

  lemma Following(plan: Plan, w: World, fuse: int, v: World, left: int, clean: bool) returns (ok: bool)
    requires Followed(plan, w, fuse, v, left, clean)
    ensures Ran(plan.ops, w, fuse, v, left, ok) && clean == (ok && plan.ok)
  {
    hide Ran;
    ok :| Ran(plan.ops, w, fuse, v, left, ok) && clean == (ok && plan.ok);
  }

  /** Resolves every directory of the upload workspace and goes on after one that cannot be resolved. */
  method RecoverGameCoverUploads(machine: Machine, names: seq<string>) returns (clean: bool)
    modifies machine
    ensures Followed(Plan(RecoverOps(old(machine.world), names), RecoverSound(old(machine.world), names)),
                     old(machine.world), old(machine.fuse), machine.world, machine.fuse, clean)
  {
    hide *;
    ghost var w, fuse := machine.world, machine.fuse;
    ghost var all := RecoverOps(w, names);
    ghost var done: seq<Op> := [];
    ghost var ok := true;
    var i := 0;
    clean := true;
    SoFarStarts(all, w, fuse);
    assert names[0..] == names;
    while i < |names|
      invariant 0 <= i <= |names|
      invariant SoFar(all, done, RecoverOps(machine.world, names[i..]), w, fuse, machine.world, machine.fuse, ok)
      invariant clean ==> ok
      invariant ok ==> RecoverSound(w, names) == (clean && RecoverSound(machine.world, names[i..]))
    {
      ghost var v, left := machine.world, machine.fuse;
      ghost var first := RecoverStagePlan(v, names[i]);
      RecoverUnfolds(v, names, i);
      var one := RecoverStage(machine, names[i]);
      ghost var taken := Following(first, v, left, machine.world, machine.fuse, one);
      SoFarAdvances(all, done, first.ops, RecoverOps(Run(first.ops, v), names[i + 1..]), first.ops,
                    w, fuse, v, left, ok, machine.world, machine.fuse, taken);
      done := done + first.ops;
      ok := ok && taken;
      clean := clean && one;
      i := i + 1;
      if !ok {
        AheadIsFree(all, done, RecoverOps(Run(first.ops, v), names[i..]), RecoverOps(machine.world, names[i..]), w, fuse, machine.world, machine.fuse);
      }
    }
    NothingToRecover(machine.world, names);
    SoFarEnds(all, done, w, fuse, machine.world, machine.fuse, ok);
    FollowedBy(Plan(all, RecoverSound(w, names)), w, fuse, machine.world, machine.fuse, ok);
  }

  // --- The installation ----------------------------------------------------------------

  lemma UploadShape(w: World, up: Upload)
    requires Acceptable(w, up)
    ensures var p, a, c := PrepareOps(w, up), ActivateOps(w, up), [CommitOp(w, up)];
            && |p| == 4 && InstallOps(w, up) == p + a + c && |InstallOps(w, up)| == 4 + |a| + 1
            && UploadOps(w, up) == p + a + c + FinalizePlan(Run(InstallOps(w, up), w), StageOf(w, up)).ops
  {
    hide Acceptable, PrepareOps, ActivateOps, CommitOp, FinalizePlan, Run;
    var p, a, c := PrepareOps(w, up), ActivateOps(w, up), [CommitOp(w, up)];
    assert p + (a + c) == p + a + c;
  }

  /** A step fails before the commit; done is what came before the list in which it fails. */
  lemma UploadStops(w: World, up: Upload, fuse: int, ops: seq<Op>, v: World, left: int)
    requires Acceptable(w, up) && ops <= InstallOps(w, up) && Ran(ops, w, fuse, v, left, false)
    ensures v == Executed(UploadOps(w, up), w, fuse) && 0 <= fuse < |ops|
  {
    hide Acceptable, PrepareOps, ActivateOps, CommitOp, FinalizePlan, Run, Executed;
    UploadShape(w, up);
    RanTo(ops, w, fuse, v, left, false);
    var more := UploadOps(w, up)[|ops|..];
    assert ops + more == UploadOps(w, up);
    RanStops(ops, more, w, fuse, v, left);
    RanTo(UploadOps(w, up), w, fuse, v, left, false);
  }

  /** All steps up to the commit are taken. */
  lemma UploadCommits(w: World, up: Upload, fuse: int, again: int, v: World, left: int, u: World, left': int, ok: bool)
    requires Acceptable(w, up) && Ran(InstallOps(w, up), w, fuse, v, left, true)
    requires Ran(FinalizePlan(v, StageOf(w, up)).ops, v, left, u, left', ok)
    ensures UploadRun(w, up, fuse, again) == u && CommitTaken(w, up, fuse)
  {
    hide Acceptable, PrepareOps, ActivateOps, CommitOp, FinalizePlan, Run, Executed, RollbackPlan;
    UploadShape(w, up);
    RanAll(InstallOps(w, up), w, fuse, v, left);
    var last := FinalizePlan(v, StageOf(w, up)).ops;
    RanThen(InstallOps(w, up), last, last, w, fuse, v, left, true, u, left', ok);
    RanTo(UploadOps(w, up), w, fuse, u, left', ok);
  }

  /** The upload is refused, or its stage is prepared; a failure on the way removes the stage. */
  method InstallCover(machine: Machine, up: Upload, again: int) returns (installed: bool)
    requires Unused(machine.world.disk, up.stage)
    modifies machine
    ensures machine.world == UploadRun(old(machine.world), up, old(machine.fuse), again)
    ensures installed <==> CommitTaken(old(machine.world), up, old(machine.fuse))
  {
    hide *;
    ghost var w, fuse := machine.world, machine.fuse;
    if !Acceptable(machine.world, up) {
      RefusedRun(w, up, fuse, again);
      return false;
    }
    var st := StageOf(machine.world, up);
    var prepare, commit := PrepareOps(machine.world, up), CommitOp(machine.world, up);
    UploadShape(w, up);
    Prefixes(w, up);
    var ok := DoAll(machine, prepare[..1]);
    ghost var v, left := machine.world, machine.fuse;
    if !ok {
      UploadStops(w, up, fuse, prepare[..1], v, left);
      StoppedRun(w, up, fuse, again);
      return false;
    }
    ok := DoAll(machine, prepare[1..]);
    RanThen(prepare[..1], prepare[1..], prepare[1..], w, fuse, v, left, true, machine.world, machine.fuse, ok);
    RanTo(prepare[..1], w, fuse, v, left, true);
    v, left := machine.world, machine.fuse;
    if !ok {
      UploadStops(w, up, fuse, prepare, v, left);
      FirstTaken(prepare, w, fuse);
      StoppedRun(w, up, fuse, again);
      machine.Restart(again);
      ok := DoAll(machine, [RemoveAll(StageRoot(up.stage))]);
      RanTo([RemoveAll(StageRoot(up.stage))], v, again, machine.world, machine.fuse, ok);
      return false;
    }
    RanAll(prepare, w, fuse, v, left);
    ActivateIs(w, up);
    installed := ActivateAndCommit(machine, up, st, commit, again, w, fuse);
  }

  lemma RefusedRun(w: World, up: Upload, fuse: int, again: int)
    requires !Acceptable(w, up)
    ensures UploadRun(w, up, fuse, again) == w && !CommitTaken(w, up, fuse)
  {
  }

  lemma StoppedRun(w: World, up: Upload, fuse: int, again: int)
    requires Acceptable(w, up) && 0 <= fuse < |InstallOps(w, up)|
    ensures var v := Executed(UploadOps(w, up), w, fuse);
            !CommitTaken(w, up, fuse) && UploadRun(w, up, fuse, again) ==
              if fuse == 0 then v else if fuse < 4 then Executed([RemoveAll(StageRoot(up.stage))], v, again)
              else Executed(RollbackPlan(v, StageOf(w, up)).ops, v, again)
  {
    hide Acceptable, InstallOps, UploadOps, Executed, RollbackPlan;
  }

  lemma FirstTaken(ops: seq<Op>, w: World, fuse: int)
    ensures ops != [] ==> ops[..1] + ops[1..] == ops
  {
  }

  lemma Prefixes(w: World, up: Upload)
    ensures var p, a, c := PrepareOps(w, up), ActivateOps(w, up), [CommitOp(w, up)];
            && p[..1] <= InstallOps(w, up) && p <= InstallOps(w, up) && p + a <= InstallOps(w, up) && p[..1] + p[1..] == p
  {
    hide PrepareOps, ActivateOps, CommitOp;
    var p, a, c := PrepareOps(w, up), ActivateOps(w, up), [CommitOp(w, up)];
    assert p + (a + c) == p + a + c;
  }

  /** Moves the file into its place and commits, and then finishes the stage or undoes it. */
  method ActivateAndCommit(machine: Machine, up: Upload, st: Stage, commit: Op, again: int, ghost w: World, ghost fuse: int) returns (installed: bool)
    requires Acceptable(w, up) && st == StageOf(w, up) && commit == CommitOp(w, up)
    requires Ran(PrepareOps(w, up), w, fuse, machine.world, machine.fuse, true)
    requires ActivatePlan(machine.world, st) == Plan(ActivateOps(w, up), true)
    modifies machine
    ensures machine.world == UploadRun(w, up, fuse, again)
    ensures installed <==> CommitTaken(w, up, fuse)
  {
    hide *;
    ghost var p, a := PrepareOps(w, up), ActivateOps(w, up);
    ghost var v, left := machine.world, machine.fuse;
    UploadShape(w, up);
    Prefixes(w, up);
    var stage := new CoverStage(machine, st);
    var ok := stage.Activate();
    ghost var taken := Following(ActivatePlan(v, st), v, left, machine.world, machine.fuse, ok);
    RanThen(p, a, a, w, fuse, v, left, true, machine.world, machine.fuse, taken);
    RanTo(p, w, fuse, v, left, true);
    v, left := machine.world, machine.fuse;
    if ok {
      ok := DoAll(machine, [commit]);
      RanThen(p + a, [commit], [commit], w, fuse, v, left, true, machine.world, machine.fuse, ok);
      v, left := machine.world, machine.fuse;
      RanTo(InstallOps(w, up), w, fuse, v, left, ok);
      if ok {
        ok := stage.Finalize();
        ghost var finished := Following(FinalizePlan(v, st), v, left, machine.world, machine.fuse, ok);
        UploadCommits(w, up, fuse, again, v, left, machine.world, machine.fuse, finished);
        return true;
      }
      UploadStops(w, up, fuse, InstallOps(w, up), v, left);
    } else {
      UploadStops(w, up, fuse, p + a, v, left);
    }
    StoppedRun(w, up, fuse, again);
    machine.Restart(again);
    ok := stage.Rollback();
    ghost var undone := Following(RollbackPlan(v, st), v, again, machine.world, machine.fuse, ok);
    RanTo(RollbackPlan(v, st).ops, v, again, machine.world, machine.fuse, undone);
    installed := false;
  }
}
