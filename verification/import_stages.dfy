/** The import as the server runs it: a stage object, the import itself and startup recovery. */
module ImportStages {
  import opened Wrappers
  import opened Storage
  import opened ImportSwaps
  import opened ImportRecovery
  import opened GameImports

  function SwapItems(swaps: seq<Swap>): (items: seq<SwapItem>)
    ensures |items| == |swaps|
    ensures forall i | 0 <= i < |swaps| :: items[i] == swaps[i].item
  {
    if swaps == [] then [] else [swaps[0].item] + SwapItems(swaps[1..])
  }

  function Untouched(items: seq<SwapItem>): (swaps: seq<Swap>)
    ensures |swaps| == |items|
    ensures forall i | 0 <= i < |swaps| :: swaps[i] == Swap(items[i], false)
  {
    if items == [] then [] else [Swap(items[0], false)] + Untouched(items[1..])
  }

  // --- One swap ------------------------------------------------------------------------

  /** Removes what is at a path. */
  method Clear(machine: Machine, p: Option<Path>) returns (ok: bool)
    modifies machine
    ensures Ran(ClearOps(old(machine.world), p), old(machine.world), old(machine.fuse), machine.world, machine.fuse, ok)
  {
    if p.Some? {
      ok := DoIf(machine, p.value in machine.world.disk, RemoveAll(p.value));
    } else {
      RanNone(machine.world, machine.fuse);
      ok := true;
    }
  }

  /** Moves the old tree to the backup and the new one into its place; reports whether anything was moved. */
  method ActivateSwap(machine: Machine, item: SwapItem) returns (ok: bool, touched: bool)
    modifies machine
    ensures var ops := ActivateItemOps(old(machine.world.disk), item);
            && Ran(ops, old(machine.world), old(machine.fuse), machine.world, machine.fuse, ok)
            && touched == (|ops| > 0 && old(machine.fuse) != 0)
  {
    hide Run, Executed, Apply, Ran;
    ghost var w, fuse := machine.world, machine.fuse;
    var replaced := item.target in machine.world.disk;
    ok := DoIf(machine, replaced, Move(item.target, item.backup));
    ghost var v, mid, first := machine.world, machine.fuse, if replaced then [Move(item.target, item.backup)] else [];
    touched := replaced && ok;
    RanTo(first, w, fuse, v, mid, ok);
    if ok && item.incoming.Some? {
      ok := DoIf(machine, true, Move(item.incoming.value, item.target));
      touched := touched || ok;
      RanTo([Move(item.incoming.value, item.target)], v, mid, machine.world, machine.fuse, ok);
      RanThen(first, [Move(item.incoming.value, item.target)], [Move(item.incoming.value, item.target)],
              w, fuse, v, mid, true, machine.world, machine.fuse, ok);
    } else {
      ghost var second := if item.incoming.Some? then [Move(item.incoming.value, item.target)] else [];
      RanNone(v, mid);
      RanThen(first, second, [], w, fuse, v, mid, ok, v, mid, true);
      assert !item.incoming.Some? ==> first + second == ActivateItemOps(w.disk, item);
    }
  }

  /** Clears the target and the incoming path of a swap that was begun and puts the backup back. */
  method RollbackSwap(machine: Machine, swap: Swap) returns (ok: bool)
    modifies machine
    ensures Ran(RollbackItemOps(old(machine.world), swap), old(machine.world), old(machine.fuse), machine.world, machine.fuse, ok)
  {
    hide Run, Executed, Apply, Ran, ClearOps;
    ghost var w, fuse := machine.world, machine.fuse;
    var item := swap.item;
    if !swap.touched {
      RanNone(w, fuse);
      return true;
    }
    var ok1 := Clear(machine, Some(item.target));
    ghost var w1, fuse1 := machine.world, machine.fuse;
    ghost var first := ClearOps(w, Some(item.target));
    if ok1 {
      RanAll(first, w, fuse, w1, fuse1);
    }
    var ok2 := Clear(machine, item.incoming);
    ghost var w2, fuse2 := machine.world, machine.fuse;
    ghost var second := ClearOps(Run(first, w), item.incoming);
    RanThen(first, second, ClearOps(w1, item.incoming), w, fuse, w1, fuse1, ok1, w2, fuse2, ok2);
    if ok1 && ok2 {
      RanAll(second, w1, fuse1, w2, fuse2);
    }
    var ok3 := DoIf(machine, item.backup in machine.world.disk, Move(item.backup, item.target));
    ghost var third := if item.backup in Run(second, Run(first, w)).disk then [Move(item.backup, item.target)] else [];
    RanThen(first + second, third, if item.backup in w2.disk then [Move(item.backup, item.target)] else [],
            w, fuse, w2, fuse2, ok1 && ok2, machine.world, machine.fuse, ok3);
    ok := ok1 && ok2 && ok3;
  }

  // --- The stage -----------------------------------------------------------------------

  /** How far an activation has come: what is done, what is left, and which swaps it has marked. */
  ghost predicate ActivatedSoFar(w: World, fuse: int, items: seq<SwapItem>, i: nat, done: seq<Op>, v: World, left: int, swaps: seq<Swap>) {
    && i <= |items| == |swaps|
    && Ran(done, w, fuse, v, left, true)
    && ActivateOps(w, items) == done + ActivateOps(v, items[i..])
    && swaps[i..] == Untouched(items[i..])
    && var k := Taken(fuse, |ActivateOps(w, items)|);
    && |done| <= k
    && Recorded(w, items, k) == swaps[..i] + Recorded(v, items[i..], k - |done|)
  }

  lemma {:induction false} NothingRecorded(w: World, items: seq<SwapItem>)
    ensures Recorded(w, items, 0) == Untouched(items)
    decreases |items|
  {
    hide ActivateItemOps, Run;
    if items != [] {
      NothingRecorded(Run(ActivateItemOps(w.disk, items[0]), w), items[1..]);
    }
  }

  lemma ActivationStarts(w: World, fuse: int, items: seq<SwapItem>, swaps: seq<Swap>)
    requires swaps == Untouched(items)
    ensures ActivatedSoFar(w, fuse, items, 0, [], w, fuse, swaps)
  {
    hide ActivateOps, Recorded, Ran;
    RanNone(w, fuse);
    assert items[0..] == items && swaps[0..] == swaps && swaps[..0] == [];
  }

  /** What is known of an activation before its next swap. */
  lemma NextSwap(w: World, fuse: int, items: seq<SwapItem>, i: nat, done: seq<Op>, v: World, left: int, swaps: seq<Swap>)
    requires ActivatedSoFar(w, fuse, items, i, done, v, left, swaps) && i < |items|
    ensures var first := ActivateItemOps(v.disk, items[i]);
            var others := ActivateOps(Run(first, v), items[i + 1..]);
            var k := Taken(fuse, |ActivateOps(w, items)|);
            && ActivateOps(w, items) == done + first + others
            && left == (if fuse < 0 then fuse else fuse - |done|) && (fuse < 0 || fuse >= |done|)
            && |done| <= k
            && Recorded(w, items, k) == swaps[..i] + [Swap(items[i], k > |done| && |first| > 0)]
               + Recorded(Run(first, v), items[i + 1..], if k <= |done| + |first| then 0 else k - |done| - |first|)
            && |swaps| == |items| && swaps[i + 1..] == Untouched(items[i + 1..])
            && Ran(done, w, fuse, v, left, true)
  {
    hide ActivateItemOps, Run, Executed, Apply, Recorded, ActivateOps, Ran;
    var first := ActivateItemOps(v.disk, items[i]);
    assert items[i..][0] == items[i] && items[i..][1..] == items[i + 1..];
    ActivateUnfolds(v, items[i..]);
    RanAll(done, w, fuse, v, left);
    RecordedUnfolds(v, items[i..], Taken(fuse, |ActivateOps(w, items)|) - |done|);
    UntouchedTail(items, i, swaps);
    assert done + (first + ActivateOps(Run(first, v), items[i + 1..])) == done + first + ActivateOps(Run(first, v), items[i + 1..]);
  }

  /** The next swap is activated. */
  lemma ActivationAdvances(w: World, fuse: int, items: seq<SwapItem>, i: nat, done: seq<Op>, v: World, left: int, swaps: seq<Swap>,
                           after: World, left': int, touched: bool)
    requires ActivatedSoFar(w, fuse, items, i, done, v, left, swaps) && i < |items|
    requires Ran(ActivateItemOps(v.disk, items[i]), v, left, after, left', true)
    requires touched == (|ActivateItemOps(v.disk, items[i])| > 0 && left != 0)
    ensures ActivatedSoFar(w, fuse, items, i + 1, done + ActivateItemOps(v.disk, items[i]), after, left', swaps[i := Swap(items[i], touched)])
  {
    hide ActivateItemOps, Run, Executed, Apply, Recorded, Ran, ActivateOps;
    var first := ActivateItemOps(v.disk, items[i]);
    var now := swaps[i := Swap(items[i], touched)];
    NextSwap(w, fuse, items, i, done, v, left, swaps);
    RanThen(done, first, first, w, fuse, v, left, true, after, left', true);
    RanAll(first, v, left, after, left');
    assert now[i + 1..] == swaps[i + 1..];
    assert now[..i + 1] == swaps[..i] + [Swap(items[i], touched)];
  }

  /** The power fails on the next swap. */
  lemma ActivationStops(w: World, fuse: int, items: seq<SwapItem>, i: nat, done: seq<Op>, v: World, left: int, swaps: seq<Swap>,
                        after: World, left': int, touched: bool)
    requires ActivatedSoFar(w, fuse, items, i, done, v, left, swaps) && i < |items|
    requires Ran(ActivateItemOps(v.disk, items[i]), v, left, after, left', false)
    requires touched == (|ActivateItemOps(v.disk, items[i])| > 0 && left != 0)
    ensures Ran(ActivateOps(w, items), w, fuse, after, left', false)
    ensures swaps[i := Swap(items[i], touched)] == Recorded(w, items, Taken(fuse, |ActivateOps(w, items)|))
  {
    hide ActivateItemOps, Run, Executed, Apply, Recorded, Ran, ActivateOps, ActivatedSoFar, Taken, Untouched;
    var first := ActivateItemOps(v.disk, items[i]);
    var others := ActivateOps(Run(first, v), items[i + 1..]);
    NextSwap(w, fuse, items, i, done, v, left, swaps);
    RanThen(done, first, first, w, fuse, v, left, true, after, left', false);
    RanNone(after, left');
    RanThen(done + first, others, [], w, fuse, after, left', false, after, left', true);
    RanTo(first, v, left, after, left', false);
    NothingRecorded(Run(first, v), items[i + 1..]);
    StoppedAt(w, fuse, items, done, first);
    Splice(swaps, i, Swap(items[i], touched));
  }

  lemma StoppedAt(w: World, fuse: int, items: seq<SwapItem>, done: seq<Op>, first: seq<Op>)
    requires |ActivateOps(w, items)| >= |done| + |first|
    requires |done| <= fuse < |done| + |first|
    ensures Taken(fuse, |ActivateOps(w, items)|) == fuse
  {
    hide ActivateOps;
  }

  lemma Splice(swaps: seq<Swap>, i: nat, swap: Swap)
    requires i < |swaps|
    ensures swaps[i := swap] == swaps[..i] + [swap] + swaps[i + 1..]
  {
  }

  lemma ActivateUnfolds(w: World, items: seq<SwapItem>)
    requires items != []
    ensures ActivateOps(w, items) == ActivateItemOps(w.disk, items[0]) + ActivateOps(Run(ActivateItemOps(w.disk, items[0]), w), items[1..])
  {
    hide ActivateItemOps, Run;
  }

  lemma RecordedUnfolds(w: World, items: seq<SwapItem>, k: nat)
    requires items != []
    ensures var ops := ActivateItemOps(w.disk, items[0]);
            Recorded(w, items, k) == [Swap(items[0], k > 0 && |ops| > 0)] + Recorded(Run(ops, w), items[1..], if k <= |ops| then 0 else k - |ops|)
  {
    hide ActivateItemOps, Run;
  }

  lemma UntouchedTail(items: seq<SwapItem>, i: nat, swaps: seq<Swap>)
    requires i < |items| == |swaps| && swaps[i..] == Untouched(items[i..])
    ensures swaps[i + 1..] == Untouched(items[i + 1..])
  {
    assert items[i..][1..] == items[i + 1..];
    assert swaps[i..][1..] == swaps[i + 1..];
  }

  lemma ActivationEnds(w: World, fuse: int, items: seq<SwapItem>, done: seq<Op>, v: World, left: int, swaps: seq<Swap>)
    requires ActivatedSoFar(w, fuse, items, |items|, done, v, left, swaps)
    ensures Ran(ActivateOps(w, items), w, fuse, v, left, true)
    ensures swaps == Recorded(w, items, Taken(fuse, |ActivateOps(w, items)|))
  {
    hide Ran;
    assert items[|items|..] == [];
    assert done + [] == done && swaps[..|items|] == swaps;
  }

  class ImportStage {
    const machine: Machine
    const stage: string
    var swaps: seq<Swap>

    constructor (machine: Machine, stage: string, swaps: seq<Swap>)
      ensures this.machine == machine && this.stage == stage && this.swaps == swaps
    {
      this.machine := machine;
      this.stage := stage;
      this.swaps := swaps;
    }

    /** Swaps all trees in order and stops at the first step that fails; the flags tell which swaps were begun. */
    method Activate() returns (ok: bool)
      requires swaps == Untouched(SwapItems(swaps))
      modifies this, machine
      ensures var ops := ActivateOps(old(machine.world), SwapItems(old(swaps)));
              && Ran(ops, old(machine.world), old(machine.fuse), machine.world, machine.fuse, ok)
              && swaps == Recorded(old(machine.world), SwapItems(old(swaps)), Taken(old(machine.fuse), |ops|))
    {
      hide *;
      ghost var w, fuse := machine.world, machine.fuse;
      ghost var items := SwapItems(swaps);
      ghost var done: seq<Op> := [];
      var i := 0;
      ActivationStarts(w, fuse, items, swaps);
      SoFarLength(w, fuse, items, 0, done, w, fuse, swaps);
      while i < |swaps|
        invariant 0 <= i <= |swaps| == |items|
        invariant ActivatedSoFar(w, fuse, items, i, done, machine.world, machine.fuse, swaps)
      {
        ghost var v, left := machine.world, machine.fuse;
        NextItem(w, fuse, items, i, done, v, left, swaps);
        var touched;
        ok, touched := ActivateSwap(machine, swaps[i].item);
        if !ok {
          ActivationStops(w, fuse, items, i, done, v, left, swaps, machine.world, machine.fuse, touched);
          swaps := swaps[i := Swap(swaps[i].item, touched)];
          return;
        }
        ActivationAdvances(w, fuse, items, i, done, v, left, swaps, machine.world, machine.fuse, touched);
        done := done + ActivateItemOps(v.disk, items[i]);
        swaps := swaps[i := Swap(swaps[i].item, touched)];
        i := i + 1;
      }
      ActivationEnds(w, fuse, items, done, machine.world, machine.fuse, swaps);
      ok := true;
    }

    /** Undoes the swaps that were begun, from the last to the first, and then drops the stage. */
    method Rollback() returns (ok: bool)
      modifies machine
      ensures Ran(RollbackOps(old(machine.world), swaps) + [RemoveAll(StageRoot(stage))],
                  old(machine.world), old(machine.fuse), machine.world, machine.fuse, ok)
    {
      hide *;
      ghost var w, fuse := machine.world, machine.fuse;
      ghost var all := RollbackOps(w, swaps);
      ghost var done: seq<Op> := [];
      var n := |swaps|;
      ok := true;
      SoFarStarts(all, w, fuse);
      WholePrefix(swaps);
      while n > 0
        invariant 0 <= n <= |swaps|
        invariant SoFar(all, done, RollbackOps(machine.world, swaps[..n]), w, fuse, machine.world, machine.fuse, ok)
      {
        ghost var v, left := machine.world, machine.fuse;
        n := n - 1;
        RollbackUnfolds(v, swaps, n + 1);
        var one := RollbackSwap(machine, swaps[n]);
        SoFarAdvances(all, done, RollbackItemOps(v, swaps[n]), RollbackOps(Run(RollbackItemOps(v, swaps[n]), v), swaps[..n]),
                      RollbackItemOps(v, swaps[n]), w, fuse, v, left, ok, machine.world, machine.fuse, one);
        done := done + RollbackItemOps(v, swaps[n]);
        ok := ok && one;
        if !ok {
          AheadIsFree(all, done, RollbackOps(Run(RollbackItemOps(v, swaps[n]), v), swaps[..n]), RollbackOps(machine.world, swaps[..n]),
                      w, fuse, machine.world, machine.fuse);
        }
      }
      NothingToUndo(machine.world, swaps);
      SoFarEnds(all, done, w, fuse, machine.world, machine.fuse, ok);
      ghost var v, left := machine.world, machine.fuse;
      if ok {
        ok := Finalize();
        RanThen(all, [RemoveAll(StageRoot(stage))], [RemoveAll(StageRoot(stage))], w, fuse, v, left, true, machine.world, machine.fuse, ok);
      } else {
        RanNone(v, left);
        RanThen(all, [RemoveAll(StageRoot(stage))], [], w, fuse, v, left, false, v, left, true);
      }
    }

    /** Drops the stage. */
    method Finalize() returns (ok: bool)
      modifies machine
      ensures Ran([RemoveAll(StageRoot(stage))], old(machine.world), old(machine.fuse), machine.world, machine.fuse, ok)
    {
      ok := DoIf(machine, true, RemoveAll(StageRoot(stage)));
    }
  }

  lemma WholePrefix(swaps: seq<Swap>)
    ensures swaps[..|swaps|] == swaps
  {
  }

  lemma RollbackUnfolds(w: World, swaps: seq<Swap>, n: nat)
    requires 0 < n <= |swaps|
    ensures var first := RollbackItemOps(w, swaps[n - 1]);
            RollbackOps(w, swaps[..n]) == first + RollbackOps(Run(first, w), swaps[..n - 1])
  {
    hide RollbackItemOps, Run;
    assert swaps[..n][..n - 1] == swaps[..n - 1];
  }

  lemma NothingToUndo(w: World, swaps: seq<Swap>)
    ensures RollbackOps(w, swaps[..0]) == []
  {
  }

  lemma SoFarLength(w: World, fuse: int, items: seq<SwapItem>, i: nat, done: seq<Op>, v: World, left: int, swaps: seq<Swap>)
    requires ActivatedSoFar(w, fuse, items, i, done, v, left, swaps)
    ensures |swaps| == |items|
  {
  }

  lemma NextItem(w: World, fuse: int, items: seq<SwapItem>, i: nat, done: seq<Op>, v: World, left: int, swaps: seq<Swap>)
    requires ActivatedSoFar(w, fuse, items, i, done, v, left, swaps) && i < |items|
    ensures |swaps| == |items| && swaps[i].item == items[i]
  {
    assert swaps[i..][0] == swaps[i] && items[i..][0] == items[i];
  }

  // --- Startup recovery ----------------------------------------------------------------

  /** Infers from the disk which swaps of a manifest were begun. */
  method InferSwaps(machine: Machine, items: seq<SwapItem>) returns (swaps: seq<Swap>)
    ensures swaps == InferAll(machine.world.disk, items)
  {
    hide Infer;
    swaps := [];
    ghost var disk := machine.world.disk;
    var i := 0;
    while i < |items|
      invariant 0 <= i <= |items| && machine.world.disk == disk
      invariant InferAll(disk, items) == swaps + InferAll(disk, items[i..])
    {
      assert items[i..][1..] == items[i + 1..];
      swaps := swaps + [Infer(machine.world.disk, items[i])];
      i := i + 1;
    }
  }

  datatype LoadError = Absent | Malformed

  /** Reads and checks the manifest of a directory of the workspace. */
  method LoadImportStage(machine: Machine, name: string) returns (r: Result<ImportStage, LoadError>, token: string)
    ensures match LoadManifest(machine.world.disk, name)
            case Missing => r == Failure(Absent)
            case Invalid => r == Failure(Malformed)
            case Loaded(t, items) =>
              r.Success? && fresh(r.value) && r.value.machine == machine && r.value.stage == name && token == t
              && r.value.swaps == InferAll(machine.world.disk, items)
  {
    token := "";
    match LoadManifest(machine.world.disk, name) {
      case Missing => return Failure(Absent), token;
      case Invalid => return Failure(Malformed), token;
      case Loaded(t, items) =>
        token := t;
        var swaps := InferSwaps(machine, items);
        var stage := new ImportStage(machine, name, swaps);
        r := Success(stage);
    }
  }

  /** Resolves one directory of the import workspace; reports whether every step was taken, and whether the manifest was good. */
  method RecoverStage(machine: Machine, name: string) returns (ok: bool, good: bool)
    modifies machine
    ensures Ran(RecoverStageOps(old(machine.world), name), old(machine.world), old(machine.fuse), machine.world, machine.fuse, ok)
    ensures good == !LoadManifest(old(machine.world.disk), name).Invalid?
  {
    hide Ran, StageRoot, ManifestPath, InferAll, RollbackOps, LoadManifest;
    var r, token := LoadImportStage(machine, name);
    good := r != Failure(Malformed);
    if r == Failure(Absent) {
      ok := DoIf(machine, true, RemoveAll(StageRoot(name)));
    } else if r.Failure? {
      RanNone(machine.world, machine.fuse);
      ok := true;
    } else if Committed(machine.world, token) {
      ok := r.value.Finalize();
    } else {
      ok := r.value.Rollback();
    }
  }

  /** Resolves every directory of the import workspace and goes on after one with a bad manifest; reports whether all could be resolved. */
  method RecoverGameImports(machine: Machine, names: seq<string>) returns (clean: bool)
    modifies machine
    ensures exists ok: bool ::
      && Ran(RecoverOps(old(machine.world), names), old(machine.world), old(machine.fuse), machine.world, machine.fuse, ok)
      && clean == (ok && RecoverSound(old(machine.world), names))
  {
    hide *;
    ghost var w, fuse := machine.world, machine.fuse;
    ghost var all := RecoverOps(w, names);
    ghost var done: seq<Op> := [];
    var i := 0;
    var ok, sound := true, true;
    SoFarStarts(all, w, fuse);
    assert names[0..] == names;
    while i < |names|
      invariant 0 <= i <= |names|
      invariant SoFar(all, done, RecoverOps(machine.world, names[i..]), w, fuse, machine.world, machine.fuse, ok)
      invariant ok ==> RecoverSound(w, names) == (sound && RecoverSound(machine.world, names[i..]))
    {
      ghost var v, left := machine.world, machine.fuse;
      ghost var first := RecoverStageOps(v, names[i]);
      RecoverUnfolds(v, names, i);
      var one, good := RecoverStage(machine, names[i]);
      SoFarAdvances(all, done, first, RecoverOps(Run(first, v), names[i + 1..]), first, w, fuse, v, left, ok, machine.world, machine.fuse, one);
      done := done + first;
      ok, sound := ok && one, sound && good;
      i := i + 1;
      if !ok {
        AheadIsFree(all, done, RecoverOps(Run(first, v), names[i..]), RecoverOps(machine.world, names[i..]), w, fuse, machine.world, machine.fuse);
      }
    }
    NothingToRecover(machine.world, names);
    SoFarEnds(all, done, w, fuse, machine.world, machine.fuse, ok);
    clean := ok && sound;
  }

  lemma RecoverUnfolds(w: World, names: seq<string>, i: nat)
    requires i < |names|
    ensures var first := RecoverStageOps(w, names[i]);
            && RecoverOps(w, names[i..]) == first + RecoverOps(Run(first, w), names[i + 1..])
            && RecoverSound(w, names[i..]) == (!LoadManifest(w.disk, names[i]).Invalid? && RecoverSound(Run(first, w), names[i + 1..]))
  {
    hide RecoverStageOps, Run, LoadManifest;
    assert names[i..][1..] == names[i + 1..];
  }

  lemma NothingToRecover(w: World, names: seq<string>)
    ensures RecoverOps(w, names[|names|..]) == [] && RecoverSound(w, names[|names|..])
  {
  }

  // --- The import ----------------------------------------------------------------------

  datatype ImportError = Rejected | BadPackage | Broken

  /** The name of the stage is new: nothing is there, and the package does not lie there. */
  predicate Fresh(w: World, imp: Import) {
    && (forall p | p in w.disk :: !(StageRoot(imp.stage) <= p))
    && !(StageRoot(imp.stage) <= imp.cover) && (imp.bundle.Some? ==> !(StageRoot(imp.stage) <= imp.bundle.value))
  }

  function MakeStage(imp: Import): Op { Write(StageRoot(imp.stage), Folder) }
  function MoveCover(imp: Import): Op { MoveInto(imp.cover, CoverItem(imp).incoming.value) }
  function DropStage(imp: Import): Op { RemoveAll(StageRoot(imp.stage)) }

  function MoveBundle(imp: Import): seq<Op> {
    if imp.bundle.Some? then [Move(imp.bundle.value, BundleItem(imp).incoming.value)] else []
  }

  lemma BundleStillThere(w: World, imp: Import)
    requires Fresh(w, imp) && CoverUsable(w.disk, imp) && imp.bundle.Some?
    ensures IsDirectory(Run([MakeStage(imp), MoveCover(imp)], w).disk, imp.bundle.value) <==> Complete(w.disk, imp)
  {
    RunUpTo3([MakeStage(imp), MoveCover(imp)], w);
  }

  lemma PrepareShape(w: World, imp: Import)
    ensures PrepareOps(w, imp) ==
      if !CoverUsable(w.disk, imp) then [MakeStage(imp)] + [DropStage(imp)]
      else if !Complete(w.disk, imp) then [MakeStage(imp), MoveCover(imp)] + [DropStage(imp)]
      else [MakeStage(imp), MoveCover(imp)] + MoveBundle(imp) + SealOps(imp)
  {
  }

  lemma CoverNotStage(w: World, imp: Import)
    requires Fresh(w, imp)
    ensures CoverUsable(Run([MakeStage(imp)], w).disk, imp) <==> CoverUsable(w.disk, imp)
  {
    RunUpTo3([MakeStage(imp)], w);
  }

  /** Gathers the new trees in the stage and writes its manifest; an incomplete package is discarded. */
  method PrepareImportStage(machine: Machine, imp: Import) returns (ok: bool, complete: bool)
    requires Fresh(machine.world, imp)
    modifies machine
    ensures Ran(PrepareOps(old(machine.world), imp), old(machine.world), old(machine.fuse), machine.world, machine.fuse, ok)
    ensures ok ==> complete == Complete(old(machine.world.disk), imp)
  {
    hide Run, Ran, SealOps, MakeStage, MoveCover, DropStage, MoveBundle, Fresh, StageRoot, PrepareOps;
    ghost var w, fuse := machine.world, machine.fuse;
    ghost var all := PrepareOps(w, imp);
    complete := false;
    PrepareShape(w, imp);
    CoverNotStage(w, imp);
    ok := DoAll(machine, [MakeStage(imp)]);
    ghost var v, left := machine.world, machine.fuse;
    if !ok {
      RanStops([MakeStage(imp)], all[1..], w, fuse, v, left);
      assert [MakeStage(imp)] + all[1..] == all;
      return;
    }
    RanAll([MakeStage(imp)], w, fuse, v, left);
    if !CoverUsable(machine.world.disk, imp) {
      ok := DoAll(machine, [DropStage(imp)]);
      RanThen([MakeStage(imp)], [DropStage(imp)], [DropStage(imp)], w, fuse, v, left, true, machine.world, machine.fuse, ok);
      return;
    }
    ok := DoAll(machine, [MoveCover(imp)]);
    RanThen([MakeStage(imp)], [MoveCover(imp)], [MoveCover(imp)], w, fuse, v, left, true, machine.world, machine.fuse, ok);
    v, left := machine.world, machine.fuse;
    ghost var begun := [MakeStage(imp)] + [MoveCover(imp)];
    assert begun == [MakeStage(imp), MoveCover(imp)];
    if !ok {
      RanStops(begun, all[2..], w, fuse, v, left);
      assert begun + all[2..] == all;
      return;
    }
    ok, complete := FinishStage(machine, imp, w, fuse);
  }

  /** The rest of the preparation, once the cover is in the stage. */
  method FinishStage(machine: Machine, imp: Import, ghost w: World, ghost fuse: int) returns (ok: bool, complete: bool)
    requires Fresh(w, imp) && CoverUsable(w.disk, imp)
    requires Ran([MakeStage(imp), MoveCover(imp)], w, fuse, machine.world, machine.fuse, true)
    modifies machine
    ensures Ran(PrepareOps(w, imp), w, fuse, machine.world, machine.fuse, ok)
    ensures ok ==> complete == Complete(w.disk, imp)
  {
    hide Run, Ran, SealOps, MakeStage, MoveCover, DropStage, Fresh, StageRoot, PrepareOps, BundleItem, CoverItem;
    ghost var begun := [MakeStage(imp), MoveCover(imp)];
    ghost var v, left := machine.world, machine.fuse;
    PrepareShape(w, imp);
    RanAll(begun, w, fuse, v, left);
    complete := false;
    if imp.bundle.Some? {
      BundleStillThere(w, imp);
      if !IsDirectory(machine.world.disk, imp.bundle.value) {
        ok := DoAll(machine, [DropStage(imp)]);
        RanThen(begun, [DropStage(imp)], [DropStage(imp)], w, fuse, v, left, true, machine.world, machine.fuse, ok);
        return;
      }
    }
    complete := true;
    var moves := MoveBundle(imp);
    ok := DoAll(machine, moves + SealOps(imp));
    RanThen(begun, moves + SealOps(imp), moves + SealOps(imp), w, fuse, v, left, true, machine.world, machine.fuse, ok);
    assert begun + (moves + SealOps(imp)) == begun + moves + SealOps(imp);
  }

  /** The answer to the commit: whether its success is heard of, and whether the receipt can be read if it is not. */
  datatype Answer = Answer(heard: bool, readable: bool)

  function Commit(imp: Import): Op { CommitPackage(imp.game, imp.token, imp.shown) }

  /** What the import leaves: if a step fails before the commit, or the commit does not succeed audibly and the receipt is not there, the import undoes itself with the steps that are possible again. */
  function ImportRun(w: World, imp: Import, fuse: int, again: int, answer: Answer): World {
    var v := Executed(ImportOps(w, imp), w, fuse);
    var p := PrepareOps(w, imp);
    if Refused(w, imp) then v
    else if !Done(p, fuse) then Executed([DropStage(imp)], v, again)
    else if !Complete(w.disk, imp) then v
    else
      var items := [CoverItem(imp), BundleItem(imp)];
      var prepared := Run(p, w);
      var a := ActivateOps(prepared, items);
      if !Done(p + a, fuse) then Executed(RollbackOps(v, Recorded(prepared, items, if fuse < |p| then 0 else fuse - |p|)) + [DropStage(imp)], v, again)
      else
        var c := Executed(p + a + [Commit(imp)], w, fuse);
        if Done(p + a + [Commit(imp)], fuse) && answer.heard then v
        else if !answer.readable then c
        else if Committed(c, imp.token) then Executed([DropStage(imp)], c, again)
        else Executed(RollbackOps(c, Recorded(prepared, items, |a|)) + [DropStage(imp)], c, again)
  }

  lemma ImportShape(w: World, imp: Import)
    requires !Refused(w, imp) && Complete(w.disk, imp)
    ensures ItemsOf(Slots(w.disk, imp)) == [CoverItem(imp), BundleItem(imp)]
    ensures ImportOps(w, imp) == PrepareOps(w, imp)
      + (ActivateOps(Run(PrepareOps(w, imp), w), [CoverItem(imp), BundleItem(imp)]) + CommitOps(imp))
  {
    hide Refused, PrepareOps, CommitOps, Complete, Run, ActivateOps;
    ItemsAre(w.disk, imp);
  }

  lemma RejectedRun(w: World, imp: Import, fuse: int, again: int, answer: Answer)
    requires Refused(w, imp)
    ensures ImportRun(w, imp, fuse, again, answer) == w
  {
    RanNone(w, fuse);
  }

  lemma PrepareFails(w: World, imp: Import, fuse: int, again: int, answer: Answer, v: World, left: int)
    requires !Refused(w, imp) && Ran(PrepareOps(w, imp), w, fuse, v, left, false)
    ensures ImportRun(w, imp, fuse, again, answer) == Executed([DropStage(imp)], v, again)
  {
    hide Executed, DropStage, Refused, PrepareOps, Complete, Run;
    RanTo(PrepareOps(w, imp), w, fuse, v, left, false);
    if Complete(w.disk, imp) {
      ImportShape(w, imp);
      RanStops(PrepareOps(w, imp), ImportOps(w, imp)[|PrepareOps(w, imp)|..], w, fuse, v, left);
      assert PrepareOps(w, imp) + ImportOps(w, imp)[|PrepareOps(w, imp)|..] == ImportOps(w, imp);
    }
  }

  lemma BadPackageRun(w: World, imp: Import, fuse: int, again: int, answer: Answer, v: World, left: int)
    requires !Refused(w, imp) && !Complete(w.disk, imp) && Ran(PrepareOps(w, imp), w, fuse, v, left, true)
    ensures ImportRun(w, imp, fuse, again, answer) == v
  {
    hide Executed, DropStage, Refused, PrepareOps, Complete, Run;
  }

  /** The activation fails. */
  lemma ActivateFails(w: World, imp: Import, fuse: int, again: int, answer: Answer, v: World, left: int, u: World, left': int, swaps: seq<Swap>)
    requires !Refused(w, imp) && Complete(w.disk, imp) && Ran(PrepareOps(w, imp), w, fuse, v, left, true)
    requires var a := ActivateOps(v, [CoverItem(imp), BundleItem(imp)]);
             && Ran(a, v, left, u, left', false)
             && swaps == Recorded(v, [CoverItem(imp), BundleItem(imp)], Taken(left, |a|))
    ensures ImportRun(w, imp, fuse, again, answer) == Executed(RollbackOps(u, swaps) + [DropStage(imp)], u, again)
  {
    hide Executed, DropStage, Refused, PrepareOps, Complete, Run, ActivateOps, CoverItem, BundleItem, Recorded, RollbackOps;
    var p := PrepareOps(w, imp);
    var a := ActivateOps(v, [CoverItem(imp), BundleItem(imp)]);
    ImportShape(w, imp);
    RanAll(p, w, fuse, v, left);
    RanThen(p, a, a, w, fuse, v, left, true, u, left', false);
    RanTo(a, v, left, u, left', false);
    RanStops(p + a, CommitOps(imp), w, fuse, u, left');
    assert p + a + CommitOps(imp) == ImportOps(w, imp);
  }

  /** The commit is reached; it takes effect or not. */
  lemma CommitReached(w: World, imp: Import, fuse: int, v: World, left: int, u: World, left': int, c: World, left'': int, took: bool)
    requires !Refused(w, imp) && Complete(w.disk, imp) && Ran(PrepareOps(w, imp), w, fuse, v, left, true)
    requires Ran(ActivateOps(v, [CoverItem(imp), BundleItem(imp)]), v, left, u, left', true)
    requires Ran([Commit(imp)], u, left', c, left'', took)
    ensures var p, a := PrepareOps(w, imp), ActivateOps(v, [CoverItem(imp), BundleItem(imp)]);
            && v == Run(p, w) && Done(p, fuse) && Done(p + a, fuse) && Ran(p + a + [Commit(imp)], w, fuse, c, left'', took)
  {
    hide Executed, DropStage, Refused, PrepareOps, Complete, Run, ActivateOps, CoverItem, BundleItem;
    var p := PrepareOps(w, imp);
    var a := ActivateOps(v, [CoverItem(imp), BundleItem(imp)]);
    RanAll(p, w, fuse, v, left);
    RanAll(a, v, left, u, left');
    RanThen(p, a, a, w, fuse, v, left, true, u, left', true);
    RanThen(p + a, [Commit(imp)], [Commit(imp)], w, fuse, u, left', true, c, left'', took);
  }

  /** The commit is heard of and the stage is dropped. */
  lemma CommitHeard(w: World, imp: Import, fuse: int, again: int, answer: Answer, v: World, c: World, left: int, x: World, left': int, ok: bool)
    requires !Refused(w, imp) && Complete(w.disk, imp) && v == Run(PrepareOps(w, imp), w) && Done(PrepareOps(w, imp), fuse) && answer.heard
    requires var a := ActivateOps(v, [CoverItem(imp), BundleItem(imp)]);
             Done(PrepareOps(w, imp) + a, fuse) && Ran(PrepareOps(w, imp) + a + [Commit(imp)], w, fuse, c, left, true)
    requires Ran([DropStage(imp)], c, left, x, left', ok)
    ensures ImportRun(w, imp, fuse, again, answer) == x
  {
    hide Executed, DropStage, Refused, PrepareOps, Complete, Run, ActivateOps, CoverItem, BundleItem, Recorded, RollbackOps, Commit, Committed;
    var p := PrepareOps(w, imp);
    var a := ActivateOps(v, [CoverItem(imp), BundleItem(imp)]);
    ImportShape(w, imp);
    CommitIs(imp);
    RanThen(p + a + [Commit(imp)], [DropStage(imp)], [DropStage(imp)], w, fuse, c, left, true, x, left', ok);
    assert p + a + [Commit(imp)] + [DropStage(imp)] == ImportOps(w, imp);
  }

  lemma CommitIs(imp: Import)
    ensures CommitOps(imp) == [Commit(imp)] + [DropStage(imp)]
  {
  }

  /** The commit is not heard of. */
  lemma CommitUnheard(w: World, imp: Import, fuse: int, again: int, answer: Answer, v: World, c: World, left: int, took: bool, swaps: seq<Swap>)
    requires !Refused(w, imp) && Complete(w.disk, imp) && v == Run(PrepareOps(w, imp), w) && Done(PrepareOps(w, imp), fuse)
    requires var a := ActivateOps(v, [CoverItem(imp), BundleItem(imp)]);
             && Done(PrepareOps(w, imp) + a, fuse) && Ran(PrepareOps(w, imp) + a + [Commit(imp)], w, fuse, c, left, took)
             && swaps == Recorded(v, [CoverItem(imp), BundleItem(imp)], |a|)
    requires !(took && answer.heard)
    ensures ImportRun(w, imp, fuse, again, answer) ==
      if !answer.readable then c
      else if Committed(c, imp.token) then Executed([DropStage(imp)], c, again)
      else Executed(RollbackOps(c, swaps) + [DropStage(imp)], c, again)
  {
    hide Executed, DropStage, Refused, PrepareOps, Complete, Run, ActivateOps, CoverItem, BundleItem, Recorded, RollbackOps, Commit, Committed;
    RanTo(PrepareOps(w, imp) + ActivateOps(v, [CoverItem(imp), BundleItem(imp)]) + [Commit(imp)], w, fuse, c, left, took);
  }

  lemma CommitShows(imp: Import, u: World, left: int, c: World, left': int, x: World, left'': int, ok: bool)
    requires Ran([Commit(imp)], u, left, c, left', true) && Ran([DropStage(imp)], c, left', x, left'', ok)
    ensures Committed(x, imp.token)
  {
    RanOne(Commit(imp), u, left);
    RanOne(DropStage(imp), c, left');
    var v := Apply(Commit(imp), u);
    assert v.db.packages[imp.game] == imp.token;
  }

  lemma DropKeepsReceipt(imp: Import, c: World, again: int)
    requires Committed(c, imp.token)
    ensures Committed(Executed([DropStage(imp)], c, again), imp.token)
  {
    RanOne(DropStage(imp), c, again);
  }

  lemma SwapItemsOf(items: seq<SwapItem>)
    ensures SwapItems(Untouched(items)) == items
  {
  }

  /** Installs a package. The fuse says at which step something fails; again says how many steps are possible after that, none if the process has died. */
  method ImportGame(machine: Machine, imp: Import, again: int, answer: Answer) returns (r: Result<(), ImportError>)
    requires Fresh(machine.world, imp)
    modifies machine
    ensures machine.world == ImportRun(old(machine.world), imp, old(machine.fuse), again, answer)
    ensures r.Success? ==> Committed(machine.world, imp.token)
    ensures r == Failure(Rejected) <==> Refused(old(machine.world), imp)
  {
    hide *;
    ghost var w, fuse := machine.world, machine.fuse;
    if Refused(machine.world, imp) {
      RejectedRun(w, imp, fuse, again, answer);
      return Failure(Rejected);
    }
    var ok, complete := PrepareImportStage(machine, imp);
    ghost var v, left := machine.world, machine.fuse;
    if !ok {
      PrepareFails(w, imp, fuse, again, answer, v, left);
      machine.Restart(again);
      ok := DoAll(machine, [DropStage(imp)]);
      RanTo([DropStage(imp)], v, again, machine.world, machine.fuse, ok);
      return Failure(Broken);
    }
    if !complete {
      BadPackageRun(w, imp, fuse, again, answer, v, left);
      return Failure(BadPackage);
    }
    r := InstallStage(machine, imp, again, answer, w, fuse);
  }

  /** Activation, commit and removal of the stage, or the undoing of it all. */
  method InstallStage(machine: Machine, imp: Import, again: int, answer: Answer, ghost w: World, ghost fuse: int) returns (r: Result<(), ImportError>)
    requires !Refused(w, imp) && Complete(w.disk, imp)
    requires Ran(PrepareOps(w, imp), w, fuse, machine.world, machine.fuse, true)
    modifies machine
    ensures machine.world == ImportRun(w, imp, fuse, again, answer)
    ensures r.Success? ==> Committed(machine.world, imp.token)
    ensures r != Failure(Rejected)
  {
    hide *;
    ghost var v, left := machine.world, machine.fuse;
    var items := [CoverItem(imp), BundleItem(imp)];
    SwapItemsOf(items);
    var stage := new ImportStage(machine, imp.stage, Untouched(items));
    var ok := stage.Activate();
    ghost var u, left' := machine.world, machine.fuse;
    if !ok {
      ActivateFails(w, imp, fuse, again, answer, v, left, u, left', stage.swaps);
      machine.Restart(again);
      ok := stage.Rollback();
      DropOf(imp);
      RanTo(RollbackOps(u, stage.swaps) + [DropStage(imp)], u, again, machine.world, machine.fuse, ok);
      return Failure(Broken);
    }
    r := CommitStage(stage, imp, again, answer, w, fuse, v, left, u, left');
  }

  /** Commits and drops the stage; if nothing is heard of the commit, the receipt decides, and if it cannot be read, recovery will. */
  method CommitStage(stage: ImportStage, imp: Import, again: int, answer: Answer, ghost w: World, ghost fuse: int,
                     ghost v: World, ghost left: int, ghost u: World, ghost left': int) returns (r: Result<(), ImportError>)
    requires !Refused(w, imp) && Complete(w.disk, imp) && stage.stage == imp.stage
    requires Ran(PrepareOps(w, imp), w, fuse, v, left, true)
    requires Ran(ActivateOps(v, [CoverItem(imp), BundleItem(imp)]), v, left, u, left', true)
    requires stage.machine.world == u && stage.machine.fuse == left'
    requires stage.swaps == Recorded(v, [CoverItem(imp), BundleItem(imp)], Taken(left, |ActivateOps(v, [CoverItem(imp), BundleItem(imp)])|))
    modifies stage.machine
    ensures stage.machine.world == ImportRun(w, imp, fuse, again, answer)
    ensures r.Success? ==> Committed(stage.machine.world, imp.token)
    ensures r != Failure(Rejected)
  {
    hide *;
    var machine := stage.machine;
    DropOf(imp);
    RanAll(ActivateOps(v, [CoverItem(imp), BundleItem(imp)]), v, left, u, left');
    AllTaken(ActivateOps(v, [CoverItem(imp), BundleItem(imp)]), left);
    var ok := DoAll(machine, [Commit(imp)]);
    ghost var c, left'' := machine.world, machine.fuse;
    CommitReached(w, imp, fuse, v, left, u, left', c, left'', ok);
    if ok && answer.heard {
      ok := stage.Finalize();
      CommitHeard(w, imp, fuse, again, answer, v, c, left'', machine.world, machine.fuse, ok);
      CommitShows(imp, u, left', c, left'', machine.world, machine.fuse, ok);
      return Success(());
    }
    CommitUnheard(w, imp, fuse, again, answer, v, c, left'', ok, stage.swaps);
    if !answer.readable {
      return Failure(Broken);
    }
    machine.Restart(again);
    if Committed(machine.world, imp.token) {
      ok := stage.Finalize();
      RanTo([DropStage(imp)], c, again, machine.world, machine.fuse, ok);
      DropKeepsReceipt(imp, c, again);
      return Success(());
    }
    ok := stage.Rollback();
    RanTo(RollbackOps(c, stage.swaps) + [DropStage(imp)], c, again, machine.world, machine.fuse, ok);
    r := Failure(Broken);
  }

  lemma AllTaken(ops: seq<Op>, fuse: int)
    requires fuse < 0 || fuse >= |ops|
    ensures Taken(fuse, |ops|) == |ops|
  {
  }

  lemma DropOf(imp: Import)
    ensures DropStage(imp) == RemoveAll(StageRoot(imp.stage))
  {
  }

  // --- An import and the recovery after it ---------------------------------------------

  /** The stage is still there, uncommitted, and some old tree has already left it for its place. */
  predicate Endangered(w: World, imp: Import, left: World) {
    && LoadManifest(left.disk, imp.stage) == Loaded(imp.token, [CoverItem(imp), BundleItem(imp)]) && !Committed(left, imp.token)
    && Forgotten(left.disk, Slots(w.disk, imp))
  }

  /** What an uninterrupted recovery of a world leads to: the new trees once the receipt is there, and otherwise the old ones, unless one is endangered. */
  ghost predicate RecoversWell(w: World, imp: Import, left: World, names: seq<string>) {
    var final := Run(RecoverOps(left, names), left);
    if Committed(left, imp.token)
    then Complete(w.disk, imp)
         && final == World(WithPackage(w.disk, imp), InstalledDb(w.db, imp))
    else final == World(Published(w.disk), w.db) <==> !Endangered(w, imp, left)
  }

  lemma CrashStateRecovers(w: World, imp: Import, c: World, names: seq<string>)
    requires Ready(w, imp) && CrashState(w, imp, c) && Listed(c.disk, names)
    ensures RecoversWell(w, imp, c, names) && !Endangered(w, imp, c)
  {
    hide Run, RecoverOps, Slots, StageRoot, ManifestPath, Published, WithPackage, Complete, SameButTargets, SameOutside, TargetsHold, Mistakable, Undoable, Listed, CrashState;
    RecoverCrashed(w, imp, c, names);
    CrashStateSafe(w, imp, c);
  }

  lemma CrashStateSafe(w: World, imp: Import, c: World)
    requires CrashState(w, imp, c)
    ensures !Endangered(w, imp, c)
  {
    hide Slots, StageRoot, ManifestPath, Complete, SameButTargets, SameOutside, TargetsHold, Mistakable, Undoable, WellPlaced, Activating;
    var slots := Slots(w.disk, imp);
    if Pending(c, imp.stage, slots, imp.token) && AllPlaced(imp.stage, slots) && AllActivating(c.disk, slots) {
      forall i | 0 <= i < |slots|
        ensures !Mistakable(c.disk, slots[i])
      {
        ActivatingGoal(imp.stage, c.disk, slots[i]);
      }
    }
  }

  /** The world after a failure in the preparation. */
  lemma AbortedPreparation(w: World, imp: Import, fuse: int, again: int, answer: Answer)
    requires Ready(w, imp) && !Refused(w, imp) && !Done(PrepareOps(w, imp), fuse)
    ensures CrashState(w, imp, ImportRun(w, imp, fuse, again, answer))
  {
    hide PrepareOps, Ready, Refused, Complete, Quiet, NoManifest, SameOutside, Sweepable, Pending, Slots;
    var v := Executed(ImportOps(w, imp), w, fuse);
    assert ImportOps(w, imp)[..fuse] == PrepareOps(w, imp)[..fuse];
    PrepareIsQuiet(w, imp, fuse);
    GatherIsQuiet(w, imp);
    var x := Executed([DropStage(imp)], v, again);
    QuietRun([DropStage(imp)][..Taken(again, 1)], v);
    NoManifestSweeps(x);
    SameOutsideJoin(w.disk, v.disk, x.disk);
  }

  /** A stage to undo whose swaps are where activation left them. */
  ghost predicate Activated(w: World, imp: Import, c: World) {
    var slots := Slots(w.disk, imp);
    && Pending(c, imp.stage, slots, imp.token) && SameButTargets(w.disk, c.disk, slots) && c.db == w.db
    && AllActivating(c.disk, slots) && AllPlaced(imp.stage, slots)
  }

  /** The steps of undoing an activation, as the running process takes them, are those recovery would take. */
  lemma UndoneActivation(w: World, imp: Import, k: nat)
    requires Ready(w, imp) && !Refused(w, imp) && Complete(w.disk, imp)
    requires k <= |ActivateOps(Run(PrepareOps(w, imp), w), [CoverItem(imp), BundleItem(imp)])|
    ensures var prepared := Run(PrepareOps(w, imp), w);
            var items := [CoverItem(imp), BundleItem(imp)];
            var c := Run(ActivateOps(prepared, items)[..k], prepared);
            && Activated(w, imp, c)
            && RollbackOps(c, Recorded(prepared, items, k)) + [DropStage(imp)] == RecoverStageOps(c, imp.stage)
  {
    hide Run, PrepareOps, Slots, ActivateOps, Recorded, InferAll, Pending, SameButTargets, AllActivating, AllPlaced, Refused, Complete, Ready, CoverItem, BundleItem, RollbackOps, StageRoot, ManifestPath, RecoverStageOps;
    ItemsAre(w.disk, imp);
    var prepared := Run(PrepareOps(w, imp), w);
    var items := [CoverItem(imp), BundleItem(imp)];
    DuringActivation(w, imp, k);
    PendingSteps(Run(ActivateOps(prepared, items)[..k], prepared), imp, Slots(w.disk, imp));
  }

  lemma PendingSteps(c: World, imp: Import, slots: seq<Slot>)
    requires Pending(c, imp.stage, slots, imp.token)
    ensures RecoverStageOps(c, imp.stage) == RollbackOps(c, InferAll(c.disk, ItemsOf(slots))) + [DropStage(imp)]
  {
    hide Undoable, RollbackOps, InferAll, ItemsOf, StageRoot;
  }

  /** Where an import that gets past its preparation stops, up to the commit. */
  lemma StoppedImport(w: World, imp: Import, n: nat)
    requires !Refused(w, imp) && Complete(w.disk, imp)
    requires var p := PrepareOps(w, imp);
             |p| <= n <= |p + ActivateOps(Run(p, w), [CoverItem(imp), BundleItem(imp)]) + [Commit(imp)]|
    ensures var p := PrepareOps(w, imp);
            var a := ActivateOps(Run(p, w), [CoverItem(imp), BundleItem(imp)]);
            && |ImportOps(w, imp)| == |p| + |a| + 2
            && Run((p + a + [Commit(imp)])[..n], w) == Run(ImportOps(w, imp)[..n], w)
            && (n <= |p| + |a| ==> Run(ImportOps(w, imp)[..n], w) == Run(a[..n - |p|], Run(p, w)))
            && (n == |p| + |a| + 1 ==> Executed([DropStage(imp)], Run(ImportOps(w, imp)[..n], w), 1) == Run(ImportOps(w, imp)[..n + 1], w))
  {
    hide Run, PrepareOps, ActivateOps, Refused, Complete, CoverItem, BundleItem, Commit, DropStage, Apply;
    var p := PrepareOps(w, imp);
    var a := ActivateOps(Run(p, w), [CoverItem(imp), BundleItem(imp)]);
    ImportShape(w, imp);
    CommitIs(imp);
    var ops := ImportOps(w, imp);
    assert ops == p + a + [Commit(imp)] + [DropStage(imp)];
    assert (p + a + [Commit(imp)])[..n] == ops[..n];
    RunSplit(p, a + CommitOps(imp), w, n);
    if n <= |p| + |a| {
      RunSplit(a, CommitOps(imp), Run(p, w), n - |p|);
    } else {
      assert ops[..n + 1] == ops[..n] + [DropStage(imp)];
      RunConcat(ops[..n], [DropStage(imp)], w);
      assert [DropStage(imp)][..1] == [DropStage(imp)];
    }
  }

  /** Once the commit is among the steps, the receipt is there. */
  lemma CommitInSteps(w: World, imp: Import)
    requires Ready(w, imp) && !Refused(w, imp) && Complete(w.disk, imp)
    ensures |ImportOps(w, imp)| > 0 && Committed(Run(ImportOps(w, imp)[..|ImportOps(w, imp)| - 1], w), imp.token)
  {
    hide *;
    ImportShape(w, imp);
    CommitIs(imp);
    var p := PrepareOps(w, imp);
    var v := Run(p, w);
    var a := ActivateOps(v, [CoverItem(imp), BundleItem(imp)]);
    var n := |p| + |a| + 1;
    assert |ImportOps(w, imp)| == n + 1;
    RunSplit(p, a + CommitOps(imp), w, n);
    RunSplit(a, CommitOps(imp), v, |a| + 1);
    DuringActivation(w, imp, |a|);
    assert a[..|a|] == a;
    AfterCommit(Run(a, v), imp, Slots(w.disk, imp), 1);
  }

  /** An import that fails at any step, hears of its commit or not, and undoes itself as far as it can, followed by one uninterrupted recovery. */
  lemma ImportThenRecovery(w: World, imp: Import, fuse: int, again: int, answer: Answer, names: seq<string>)
    requires Ready(w, imp) && Listed(ImportRun(w, imp, fuse, again, answer).disk, names)
    ensures RecoversWell(w, imp, ImportRun(w, imp, fuse, again, answer), names)
    ensures again <= 0 ==> !Endangered(w, imp, ImportRun(w, imp, fuse, again, answer))
  {
    hide Run, PrepareOps, Slots, ActivateOps, Recorded, Refused, Complete, Ready, CommitOps, CoverItem, BundleItem, RollbackOps, StageRoot, ManifestPath, RecoverStageOps, Listed, RecoversWell, Endangered, CrashState, Activated, Commit, DropStage, Executed, ImportOps;
    var left := ImportRun(w, imp, fuse, again, answer);
    var p := PrepareOps(w, imp);
    if !Refused(w, imp) && Done(p, fuse) && Complete(w.disk, imp) {
      ReachedImport(w, imp, fuse, again, answer, names);
    } else {
      if Refused(w, imp) || Done(p, fuse) {
        CrashedRun(w, imp, fuse);
      } else {
        AbortedPreparation(w, imp, fuse, again, answer);
      }
      CrashStateRecovers(w, imp, left, names);
    }
  }

  /** The same once the stage is prepared. */
  lemma ReachedImport(w: World, imp: Import, fuse: int, again: int, answer: Answer, names: seq<string>)
    requires Ready(w, imp) && !Refused(w, imp) && Complete(w.disk, imp) && Done(PrepareOps(w, imp), fuse)
    requires Listed(ImportRun(w, imp, fuse, again, answer).disk, names)
    ensures RecoversWell(w, imp, ImportRun(w, imp, fuse, again, answer), names)
    ensures again <= 0 ==> !Endangered(w, imp, ImportRun(w, imp, fuse, again, answer))
  {
    hide Run, PrepareOps, Slots, ActivateOps, Recorded, Refused, Complete, Ready, CommitOps, CoverItem, BundleItem, RollbackOps, StageRoot, ManifestPath, RecoverStageOps, Listed, RecoversWell, Endangered, CrashState, Activated, Commit, DropStage, ImportOps, Committed;
    var left := ImportRun(w, imp, fuse, again, answer);
    var p := PrepareOps(w, imp);
    var items := [CoverItem(imp), BundleItem(imp)];
    var prepared := Run(p, w);
    var a := ActivateOps(prepared, items);
    var n := Taken(fuse, |p| + |a| + 1);
    StoppedImport(w, imp, n);
    CrashStates(w, imp, n);
    var c := Run(ImportOps(w, imp)[..n], w);
    var ops := p + a + [Commit(imp)];
    assert Executed(ops, w, fuse) == c;
    if n < |p| + |a| || (n == |p| + |a| && answer.readable) {
      UndoneActivation(w, imp, n - |p|);
      FirstStops(w, imp, c);
      assert n < |p| + |a| ==> Executed(ImportOps(w, imp), w, fuse) == c;
      assert left == Executed(RecoverStageOps(c, imp.stage), c, again);
      UndoneThenRecovery(w, imp, c, again, names);
    } else if n == |p| + |a| + 1 && answer.readable && !answer.heard {
      CommitInSteps(w, imp);
      CrashStates(w, imp, n + 1);
      DroppedOrNot(imp, c, again);
      CrashStateRecovers(w, imp, left, names);
    } else {
      CrashedRun(w, imp, fuse);
      CrashStateRecovers(w, imp, left, names);
    }
  }

  lemma FirstStops(w: World, imp: Import, c: World)
    ensures Activated(w, imp, c) ==> !Committed(c, imp.token)
  {
    hide Slots, Undoable, SameButTargets, AllActivating, AllPlaced, Committed;
  }

  lemma DroppedOrNot(imp: Import, c: World, again: int)
    ensures Executed([DropStage(imp)], c, again) == if again == 0 then c else Executed([DropStage(imp)], c, 1)
  {
    RanOne(DropStage(imp), c, again);
    RanOne(DropStage(imp), c, 1);
  }

  lemma CrashedRun(w: World, imp: Import, fuse: int)
    requires Ready(w, imp)
    ensures CrashState(w, imp, Executed(ImportOps(w, imp), w, fuse))
  {
    hide Run, ImportOps, Ready, CrashState;
    CrashStates(w, imp, Taken(fuse, |ImportOps(w, imp)|));
  }

  lemma UndoneThenRecovery(w: World, imp: Import, c: World, again: int, names: seq<string>)
    requires Activated(w, imp, c)
    requires Listed(Executed(RecoverStageOps(c, imp.stage), c, again).disk, names)
    ensures var left := Executed(RecoverStageOps(c, imp.stage), c, again);
            RecoversWell(w, imp, left, names) && (again <= 0 ==> !Endangered(w, imp, left))
  {
    hide Run, Slots, Pending, SameButTargets, AllActivating, AllPlaced, Complete, StageRoot, ManifestPath, RecoverStageOps, Listed, Published, WithPackage, RecoverOps, Forgotten, Landed, Sweepable, Committed, TargetsHold, InWorkspace;
    var slots := Slots(w.disk, imp);
    var ops := RecoverStageOps(c, imp.stage);
    var k := Taken(again, |ops|);
    var left := Executed(ops, c, again);
    PendingStage(c, imp.stage, slots, imp.token, [imp.stage], k);
    SameButTargetsJoin(w.disk, c.disk, left.disk, slots);
    PendingNotCommitted(c, imp, slots);
    SameCommitted(c, left, imp.token);
    if k < |ops| {
      RecoverAgain(w, imp, left, names);
      PendingManifest(w, imp, left);
      if again == 0 {
        RunNone(c);
        assert ops[..0] == [];
        PendingCrash(w, imp, c);
      }
    } else {
      LandedTargets(c.disk, left.disk, imp, slots);
      SweptThenRecovery(w, imp, left, names);
    }
  }

  lemma PendingCrash(w: World, imp: Import, c: World)
    requires Pending(c, imp.stage, Slots(w.disk, imp), imp.token) && SameButTargets(w.disk, c.disk, Slots(w.disk, imp)) && c.db == w.db
    requires AllActivating(c.disk, Slots(w.disk, imp)) && AllPlaced(imp.stage, Slots(w.disk, imp))
    ensures !Endangered(w, imp, c)
  {
    hide Slots, StageRoot, ManifestPath, Complete, SameButTargets, Mistakable, Undoable, WellPlaced, Activating;
    var slots := Slots(w.disk, imp);
    forall i | 0 <= i < |slots|
      ensures !Mistakable(c.disk, slots[i])
    {
      ActivatingGoal(imp.stage, c.disk, slots[i]);
    }
  }

  lemma PendingManifest(w: World, imp: Import, c: World)
    requires Pending(c, imp.stage, Slots(w.disk, imp), imp.token)
    ensures LoadManifest(c.disk, imp.stage) == Loaded(imp.token, [CoverItem(imp), BundleItem(imp)]) && !Committed(c, imp.token)
  {
    hide Undoable, ManifestPath, Committed;
    ItemsAre(w.disk, imp);
  }

  lemma SweptThenRecovery(w: World, imp: Import, left: World, names: seq<string>)
    requires Sweepable(left) && left.db == w.db && SameButTargets(w.disk, left.disk, Slots(w.disk, imp)) && !Committed(left, imp.token)
    requires TargetsHold(left.disk, Slots(w.disk, imp), false) && AllPlaced(imp.stage, Slots(w.disk, imp)) && Listed(left.disk, names)
    ensures RecoversWell(w, imp, left, names) && !Endangered(w, imp, left)
  {
    hide Run, Slots, SameButTargets, Complete, StageRoot, ManifestPath, Listed, Published, WithPackage, RecoverOps, Forgotten, Committed, TargetsHold, InWorkspace, AllPlaced;
    var slots := Slots(w.disk, imp);
    var ops := RecoverOps(left, names);
    assert ops[..|ops|] == ops;
    Sweep(left, names, |ops|);
    var after := Run(ops, left);
    TargetsOutside(left.disk, after.disk, imp, slots, false);
    OutsideButTargets(left.disk, after.disk, slots);
    SameButTargetsJoin(w.disk, left.disk, after.disk, slots);
    FinalDisk(w.disk, after.disk, imp, false);
  }
}
