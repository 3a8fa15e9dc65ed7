/** Recovery of the upload workspace: what it takes and what it leaves, over any listing and however often it is cut short. */
module CoverRecovery {
  import opened Wrappers
  import opened Storage
  import opened GameCovers

  // --- How recovery moves on -----------------------------------------------------------

  /** Rows of games stay; receipts may go; files only go if some stage gives them up; stages only go, and none goes before its files. */
  ghost predicate Toward(w: World, v: World) {
    && v.db.games == w.db.games && v.db.packages == w.db.packages && v.db.covers == w.db.covers
    && (forall t | t in v.db.receipts :: t in w.db.receipts && v.db.receipts[t] == w.db.receipts[t])
    && (forall p: Path | !InUploads(p) :: Lookup(v.disk, p) == Lookup(w.disk, p) || (Lookup(v.disk, p) == None && Given(w, p)))
    && (forall n: string :: StageKept(w, v, n))
    && (forall p: Path | Given(w, p) && Lookup(v.disk, p) != None :: Given(v, p))
  }

  predicate Settled(w: World, name: string) {
    LoadStage(w.disk, name).Loaded? && Committed(w.db, LoadStage(w.disk, name).stage)
  }

  /** A directory holds the stage it held, committed or not as before, with the same to give up. */
  predicate SameStage(w: World, v: World, name: string) {
    LoadStage(v.disk, name) == LoadStage(w.disk, name) && Gives(v, name) == Gives(w, name) && Settled(v, name) == Settled(w, name)
  }

  /** A directory holds the stage it held, or none. */
  predicate StageKept(w: World, v: World, name: string) {
    SameStage(w, v, name) || LoadStage(v.disk, name).Missing?
  }

  lemma TowardSelf(w: World)
    ensures Toward(w, w)
  {
    hide LoadStage, Gives;
  }

  lemma GivenBefore(w: World, v: World, p: Path)
    requires Toward(w, v) && Given(v, p)
    ensures Given(w, p)
  {
    hide LoadStage, GivesOf;
    var n: string :| p in Gives(v, n);
    assert StageKept(w, v, n);
    assert p in Gives(w, n);
  }

  lemma GivenOutside(w: World, p: Path)
    requires Given(w, p)
    ensures !InUploads(p)
  {
    hide Gives, IsCover, InUploads;
    var n: string :| p in Gives(w, n);
    GivenIsCover(w, n, p);
    CoversApart(p, n);
  }

  lemma TowardThen(w: World, v: World, u: World)
    requires Toward(w, v) && Toward(v, u)
    ensures Toward(w, u)
  {
    hide LoadStage, Gives, Given, Settled, InUploads;
    forall p: Path | Given(w, p)
      ensures !InUploads(p)
    {
      GivenOutside(w, p);
    }
    forall p: Path | !InUploads(p)
      ensures Lookup(u.disk, p) == Lookup(w.disk, p) || (Lookup(u.disk, p) == None && Given(w, p))
    {
      if Given(v, p) {
        GivenBefore(w, v, p);
      }
    }
    forall n: string
      ensures StageKept(w, u, n)
    {
      assert StageKept(w, v, n) && StageKept(v, u, n);
    }
  }

  lemma SameReferences(a: Database, b: Database)
    requires a.covers == b.covers
    ensures forall p :: Referenced(a, p) <==> Referenced(b, p)
  {
    forall p
      ensures Referenced(a, p) <==> Referenced(b, p)
    {
    }
  }

  /** Some of the files of a stage are gone. */
  lemma FilesGone(w: World, v: World, name: string, gone: set<Path>)
    requires Orderly(w) && v.db == w.db && gone <= Gives(w, name)
    requires forall p: Path :: Lookup(v.disk, p) == if p in gone then None else Lookup(w.disk, p)
    ensures Orderly(v) && Toward(w, v) && forall n: string :: SameStage(w, v, n)
  {
    hide IsCover, GivesOf, ValidStage, ManifestPath;
    forall p | p in gone
      ensures IsCover(p) && Given(w, p)
    {
      GivenIsCover(w, name, p);
    }
    forall n: string
      ensures LoadStage(v.disk, n) == LoadStage(w.disk, n)
    {
      if ManifestPath(n) in gone {
        CoversApart(ManifestPath(n), n);
      }
    }
    forall p | p in v.disk && IsCover(p)
      ensures Verified(v.disk, p)
    {
      SameVerified(w.disk, v.disk, p);
    }
    forall n: string, m: string | n != m
      ensures TokensDiffer(v.disk, n, m)
    {
      assert TokensDiffer(w.disk, n, m);
    }
    forall p: Path | Given(w, p)
      ensures Given(v, p)
    {
      var n: string :| p in Gives(w, n);
      assert SameStage(w, v, n);
      assert p in Gives(v, n);
    }
  }

  lemma SameVerified(a: Disk, b: Disk, p: Path)
    requires p in b && (Lookup(b, p) == None || Lookup(b, p) == Lookup(a, p)) && (p in a ==> Verified(a, p))
    ensures Verified(b, p)
  {
    hide IsCover;
  }

  /** Removing a stage changes the workspace only, and no other stage. */
  lemma StageLeaves(w: World, name: string)
    ensures var v := Apply(RemoveAll(StageRoot(name)), w);
            && v.db == w.db && (forall p: Path | !InUploads(p) :: Lookup(v.disk, p) == Lookup(w.disk, p))
            && forall n: string :: LoadStage(v.disk, n) == if n == name then Missing else LoadStage(w.disk, n)
  {
    hide ValidStage, ManifestPath, StageRoot, Apply, InUploads;
    var v := Apply(RemoveAll(StageRoot(name)), w);
    StageRemoved(w, name, []);
    forall p: Path | !InUploads(p)
      ensures Lookup(v.disk, p) == Lookup(w.disk, p)
    {
      StageRemoved(w, name, p);
      StagesApart(name, name, p);
    }
    forall n: string
      ensures LoadStage(v.disk, n) == if n == name then Missing else LoadStage(w.disk, n)
    {
      StageRemoved(w, name, ManifestPath(n));
      StagesApart(n, name, ManifestPath(n));
      StagesApart(n, n, ManifestPath(n));
    }
  }

  /** Stages stay or go, and the cover files stay as they are. */
  lemma OrderlyLater(w: World, v: World)
    requires Orderly(w) && (forall p: Path | !InUploads(p) :: Lookup(v.disk, p) == Lookup(w.disk, p))
    requires forall n: string :: LoadStage(v.disk, n) == LoadStage(w.disk, n) || LoadStage(v.disk, n).Missing?
    ensures Orderly(v)
  {
    hide IsCover, LoadStage, InUploads;
    forall p | p in v.disk && IsCover(p)
      ensures Verified(v.disk, p)
    {
      CoversApart(p, "");
      SameVerified(w.disk, v.disk, p);
    }
    forall n: string, m: string | n != m
      ensures TokensDiffer(v.disk, n, m)
    {
      assert TokensDiffer(w.disk, n, m);
    }
  }

  /** A stage whose files are gone is removed. */
  lemma StageGone(w: World, name: string)
    requires Orderly(w) && forall p | p in Gives(w, name) :: p !in w.disk
    ensures var v := Apply(RemoveAll(StageRoot(name)), w);
            Orderly(v) && Toward(w, v) && LoadStage(v.disk, name).Missing?
            && (forall n: string | n != name :: SameStage(w, v, n)) && forall p: Path | !InUploads(p) :: Lookup(v.disk, p) == Lookup(w.disk, p)
  {
    hide GivesOf, LoadStage, StageRoot, Apply, InUploads, Orderly;
    var v := Apply(RemoveAll(StageRoot(name)), w);
    StageLeaves(w, name);
    OrderlyLater(w, v);
    forall p: Path | Given(w, p) && Lookup(v.disk, p) != None
      ensures Given(v, p)
    {
      GivenOutside(w, p);
      var n: string :| p in Gives(w, n);
      assert Lookup(w.disk, p) != None;
      assert n != name;
      assert SameStage(w, v, n);
      assert p in Gives(v, n);
    }
  }

  /** A receipt without a stage is dropped. */
  lemma ReceiptGone(w: World, token: string)
    requires Orderly(w) && forall n: string | LoadStage(w.disk, n).Loaded? :: LoadStage(w.disk, n).stage.token != token
    ensures var v := Apply(DropReceipt(token), w);
            Orderly(v) && Toward(w, v) && v.disk == w.disk && forall n: string :: SameStage(w, v, n)
  {
    hide IsCover, ValidStage, ManifestPath, LoadStage, Referenced;
    var v := Apply(DropReceipt(token), w);
    SameReferences(w.db, v.db);
    forall n: string
      ensures SameStage(w, v, n)
    {
    }
    forall p: Path | Given(w, p)
      ensures Given(v, p)
    {
      var n: string :| p in Gives(w, n);
      assert SameStage(w, v, n);
      assert p in Gives(v, n);
    }
  }

  // --- Resolving one directory ---------------------------------------------------------

  /** Resolving a directory up to some step: no other directory has changed, and outside the workspace only what this one gives up is gone. */
  ghost predicate Turn(w: World, v: World, name: string) {
    && Orderly(v) && Toward(w, v) && (forall n: string | n != name :: SameStage(w, v, n))
    && forall p: Path | !InUploads(p) :: Lookup(v.disk, p) == Lookup(w.disk, p) || (Lookup(v.disk, p) == None && p in Gives(w, name))
  }

  lemma TowardKeeps(w: World, v: World, name: string)
    requires Toward(w, v)
    ensures StageKept(w, v, name) && (LoadStage(v.disk, name).Missing? ==> Gives(v, name) == {} && !Settled(v, name))
    ensures Gives(v, name) <= Gives(w, name)
  {
    hide LoadStage, GivesOf, Given, InUploads;
    assert StageKept(w, v, name);
  }

  lemma TurnThen(w: World, v: World, u: World, name: string)
    requires Turn(w, v, name) && Turn(v, u, name)
    ensures Turn(w, u, name)
  {
    hide Toward, Orderly, Gives, LoadStage, Settled, InUploads;
    TowardThen(w, v, u);
    TowardKeeps(w, v, name);
    forall n: string | n != name
      ensures SameStage(w, u, n)
    {
      assert SameStage(w, v, n) && SameStage(v, u, n);
    }
  }

  lemma {:induction false} FilesDeleted(w: World, files: seq<Path>, p: Path)
    ensures var v := Run(Deletes(files), w); v.db == w.db && Lookup(v.disk, p) == if p in files then None else Lookup(w.disk, p)
    decreases |files|
  {
    if files != [] {
      FilesDeleted(Apply(Delete(files[0]), w), files[1..], p);
      assert files == [files[0]] + files[1..];
    }
  }

  lemma {:induction false} DeletesUpTo(files: seq<Path>, k: nat)
    requires k <= |files|
    ensures Deletes(files)[..k] == Deletes(files[..k])
    decreases |files|
  {
    if k > 0 {
      DeletesUpTo(files[1..], k - 1);
      assert files[..k][1..] == files[1..][..k - 1];
      assert Deletes(files)[..k] == [Delete(files[0])] + Deletes(files[1..])[..k - 1];
    }
  }

  /** The first files of a stage are deleted. */
  lemma WhileDeleting(w: World, name: string, k: nat)
    requires Orderly(w) && k <= |FilesOf(w, name)|
    ensures var v := Run(Deletes(FilesOf(w, name))[..k], w);
            Turn(w, v, name) && SameStage(w, v, name) && v.db == w.db
            && (k == |FilesOf(w, name)| && Good(w, name) ==> forall p | p in Gives(w, name) :: p !in v.disk)
  {
    hide Orderly, Gives, LoadStage, Settled, InUploads, FilesOf, Deletes, Run, Toward, Good;
    var files := FilesOf(w, name);
    var v := Run(Deletes(files)[..k], w);
    DeletesUpTo(files, k);
    FilesAreGiven(w, name);
    var gone := set f | f in files[..k];
    FilesDeleted(w, files[..k], []);
    forall p: Path
      ensures Lookup(v.disk, p) == if p in gone then None else Lookup(w.disk, p)
    {
      FilesDeleted(w, files[..k], p);
    }
    FilesGone(w, v, name, gone);
    assert files[..|files|] == files;
    forall p | p in Gives(w, name) && k == |files| && Good(w, name)
      ensures p !in v.disk
    {
      assert Lookup(v.disk, p) == None;
    }
  }

  /** The stage and its receipt go once its files are gone. */
  lemma WhileDropping(w: World, name: string, k: nat)
    requires Orderly(w) && k <= |TailOf(w, name)| && forall p | p in Gives(w, name) :: p !in w.disk
    ensures var v := Run(TailOf(w, name)[..k], w);
            Turn(w, v, name) && (k > 0 ==> LoadStage(v.disk, name).Missing?)
  {
    hide Orderly, Gives, LoadStage, Settled, InUploads, Run, Toward, Apply, StageRoot, Given;
    var tail := TailOf(w, name);
    RunUpTo3(tail[..k], w);
    if k == 0 {
      TowardSelf(w);
    } else {
      var v := Apply(RemoveAll(StageRoot(name)), w);
      StageGone(w, name);
      TurnOf(w, v, name);
      if k == 2 {
        var token := LoadStage(w.disk, name).stage.token;
        forall n: string | LoadStage(v.disk, n).Loaded?
          ensures LoadStage(v.disk, n).stage.token != token
        {
          assert n != name && SameStage(w, v, n);
          TokenApart(w, name, n);
        }
        ReceiptGone(v, token);
        TurnOf(v, Apply(DropReceipt(token), v), name);
        TurnThen(w, v, Apply(DropReceipt(token), v), name);
      }
    }
  }

  lemma TokenApart(w: World, n: string, m: string)
    requires Orderly(w) && n != m && LoadStage(w.disk, n).Loaded? && LoadStage(w.disk, m).Loaded?
    ensures LoadStage(w.disk, n).stage.token != LoadStage(w.disk, m).stage.token
  {
    hide LoadStage;
    assert TokensDiffer(w.disk, n, m);
  }

  lemma TurnOf(w: World, v: World, name: string)
    requires Orderly(v) && Toward(w, v) && forall n: string | n != name :: SameStage(w, v, n)
    requires forall p: Path | !InUploads(p) :: Lookup(v.disk, p) == Lookup(w.disk, p)
    ensures Turn(w, v, name)
  {
    hide Orderly, Gives, LoadStage, Settled, InUploads, Toward;
  }

  /** Resolving a directory up to any step; in the end, if there is no error, the stage and its files are gone. */
  lemma ResolveOne(w: World, name: string, k: nat)
    requires Orderly(w) && k <= |RecoverStagePlan(w, name).ops|
    ensures var ops := RecoverStagePlan(w, name).ops;
            var v := Run(ops[..k], w);
            && RecoverStagePlan(w, name).ok == Good(w, name) && Turn(w, v, name)
            && (k <= |FilesOf(w, name)| ==> SameStage(w, v, name) && v.db == w.db)
            && (k == |ops| && Good(w, name) ==> LoadStage(v.disk, name).Missing? && forall p | p in Gives(w, name) && !InUploads(p) :: p !in v.disk)
  {
    hide Orderly, Gives, LoadStage, Settled, InUploads, FilesOf, Deletes, Run, Toward, Good, TailOf, RecoverStagePlan, Turn, SameStage;
    OrderlyIsHonest(w);
    DirectoryPlan(w, name);
    var ops := RecoverStagePlan(w, name).ops;
    var first := Deletes(FilesOf(w, name));
    var tail := if Good(w, name) then TailOf(w, name) else [];
    RunSplit(first, tail, w, k);
    if k <= |first| {
      WhileDeleting(w, name, k);
      TailIsSome(w, name);
    } else {
      var v := Run(first, w);
      WhileDeleting(w, name, |first|);
      assert first[..|first|] == first;
      SameGives(w, v, name);
      WhileDropping(v, name, k - |first|);
      TurnThen(w, v, Run(tail[..k - |first|], v), name);
      StaysGone(v, Run(tail[..k - |first|], v), name);
    }
  }

  lemma TailIsSome(w: World, name: string)
    ensures TailOf(w, name) != []
  {
  }

  lemma OrderlyIsHonest(w: World)
    requires Orderly(w)
    ensures Honest(w.disk)
  {
  }

  lemma SameGives(w: World, v: World, name: string)
    requires Turn(w, v, name) && SameStage(w, v, name)
    ensures Orderly(v) && Gives(v, name) == Gives(w, name) && TailOf(v, name) == TailOf(w, name)
  {
    hide Orderly, Gives, LoadStage, Toward, InUploads;
  }

  lemma StaysGone(w: World, v: World, name: string)
    requires Turn(w, v, name)
    ensures forall p: Path | !InUploads(p) && p !in w.disk :: p !in v.disk
  {
    hide Orderly, Gives, LoadStage, Toward, InUploads;
    forall p: Path | !InUploads(p) && p !in w.disk
      ensures p !in v.disk
    {
      assert Lookup(w.disk, p) == None;
    }
  }

  // --- Recovery over a listing ---------------------------------------------------------

  /** One of the listed stages gives the file up. */
  ghost predicate GivenBy(w: World, names: seq<string>, p: Path) {
    exists n | n in names :: p in Gives(w, n)
  }

  lemma GivenLater(w: World, v: World, names: seq<string>, p: Path)
    requires names != [] && Toward(w, v) && GivenBy(v, names[1..], p)
    ensures GivenBy(w, names, p)
  {
    hide Gives, Toward;
    var n :| n in names[1..] && p in Gives(v, n);
    TowardKeeps(w, v, n);
  }

  /** Recovery up to any step only moves on, and only files the listed stages give up are gone. */
  lemma {:induction false} RecoverPrefix(w: World, names: seq<string>, k: nat)
    requires Orderly(w) && k <= |RecoverOps(w, names)|
    ensures var v := Run(RecoverOps(w, names)[..k], w);
            && Orderly(v) && Toward(w, v)
            && forall p: Path | !InUploads(p) :: Lookup(v.disk, p) == Lookup(w.disk, p) || (Lookup(v.disk, p) == None && GivenBy(w, names, p))
    decreases |names|
  {
    hide Orderly, Gives, LoadStage, InUploads, Run, Toward, RecoverStagePlan, Good, GivenBy;
    var ops := RecoverOps(w, names);
    if names == [] {
      assert ops[..k] == [];
      RunNone(w);
      TowardSelf(w);
    } else {
      var first := RecoverStagePlan(w, names[0]).ops;
      var u := Run(first, w);
      RunSplit(first, RecoverOps(u, names[1..]), w, k);
      if k < |first| {
        ResolveOne(w, names[0], k);
        GivenByFirst(w, names);
      } else {
        ResolveOne(w, names[0], |first|);
        assert first[..|first|] == first;
        RecoverPrefix(u, names[1..], k - |first|);
        var v := Run(ops[..k], w);
        TowardThen(w, u, v);
        GivenByFirst(w, names);
        forall p: Path | !InUploads(p)
          ensures Lookup(v.disk, p) == Lookup(w.disk, p) || (Lookup(v.disk, p) == None && GivenBy(w, names, p))
        {
          if GivenBy(u, names[1..], p) {
            GivenLater(w, u, names, p);
          }
        }
      }
    }
  }

  lemma GivenByFirst(w: World, names: seq<string>)
    requires names != []
    ensures forall p | p in Gives(w, names[0]) :: GivenBy(w, names, p)
  {
    hide Gives;
    assert names[0] in names;
  }

  // --- When recovery succeeds ----------------------------------------------------------

  /** The stage brought a file, was never committed, and some game has come to show the file. */
  predicate Threatens(w: World, name: string) {
    match LoadStage(w.disk, name)
    case Missing => false
    case Invalid => false
    case Loaded(st) => st.created && !Committed(w.db, st) && st.target in w.disk && Referenced(w.db, st.target)
  }

  /** Undoing the first stage takes the file without which the second, which is committed, cannot be finished. */
  predicate Blocks(w: World, n: string, m: string) {
    LoadStage(w.disk, n).Loaded? && !Settled(w, n) && LoadStage(w.disk, n).stage.created && Settled(w, m)
    && LoadStage(w.disk, n).stage.target == LoadStage(w.disk, m).stage.target && Referenced(w.db, LoadStage(w.disk, m).stage.target)
  }

  /** Every stage can be finished or undone, whichever comes first. */
  ghost predicate Resolvable(w: World) {
    Orderly(w) && (forall n: string :: Good(w, n)) && forall n: string, m: string :: !Blocks(w, n, m)
  }

  lemma ResolvableAt(w: World, name: string)
    requires Resolvable(w)
    ensures Good(w, name)
  {
    hide Orderly, Good, Blocks;
  }

  /** A file that a game shows is given up only by a stage that threatens it. */
  lemma ShownAndGiven(w: World, name: string, p: Path)
    requires p in Gives(w, name) && Referenced(w.db, p) && p in w.disk
    ensures Threatens(w, name) && p == LoadStage(w.disk, name).stage.target
  {
    hide IsCover, Referenced, ManifestPath;
  }

  lemma ThreatIsGiven(w: World, name: string)
    requires Threatens(w, name)
    ensures LoadStage(w.disk, name).Loaded? && !Settled(w, name)
    ensures LoadStage(w.disk, name).stage.created
    ensures var target := LoadStage(w.disk, name).stage.target; target in Gives(w, name) && Referenced(w.db, target) && target in w.disk && IsCover(target)
  {
    hide IsCover, Referenced, ManifestPath;
    LoadedIsValid(w.disk, name);
  }

  lemma SameReferred(a: Database, b: Database, p: Path)
    requires a.covers == b.covers
    ensures Referenced(a, p) == Referenced(b, p)
  {
    SameReferences(a, b);
  }

  lemma TargetOutside(w: World, name: string)
    requires LoadStage(w.disk, name).Loaded?
    ensures !InUploads(LoadStage(w.disk, name).stage.target)
  {
    hide IsCover, InUploads;
    LoadedIsValid(w.disk, name);
    CoversApart(LoadStage(w.disk, name).stage.target, name);
  }

  lemma GoodKept(w: World, v: World, name: string)
    requires Resolvable(w) && Toward(w, v)
    ensures Good(v, name)
  {
    hide Gives, Orderly, LoadStage, InUploads, Referenced, Resolvable, Given;
    ResolvableAt(w, name);
    TowardKeeps(w, v, name);
    if LoadStage(v.disk, name).Loaded? && Settled(v, name) {
      var target := LoadStage(v.disk, name).stage.target;
      TargetOutside(w, name);
      SameReferred(w.db, v.db, target);
      assert Lookup(v.disk, target) == Lookup(w.disk, target) || (Lookup(v.disk, target) == None && Given(w, target));
      if target in w.disk && Referenced(w.db, target) {
        NotGiven(w, name, target);
      }
    }
  }

  lemma NotGiven(w: World, name: string, p: Path)
    requires Resolvable(w) && Settled(w, name) && p == LoadStage(w.disk, name).stage.target && p in w.disk && Referenced(w.db, p)
    ensures !Given(w, p)
  {
    hide Gives, Orderly, Referenced, Good, LoadStage;
    if Given(w, p) {
      var n: string :| p in Gives(w, n);
      assert !Blocks(w, n, name);
      ShownAndGiven(w, n, p);
      ThreatIsGiven(w, n);
    }
  }

  lemma BlocksNot(w: World, v: World, n: string, m: string)
    requires Resolvable(w) && Toward(w, v)
    ensures !Blocks(v, n, m)
  {
    hide Gives, Orderly, Referenced, Good, LoadStage;
    TowardKeeps(w, v, n);
    TowardKeeps(w, v, m);
    assert !Blocks(w, n, m);
    if Blocks(v, n, m) {
      SameReferred(w.db, v.db, LoadStage(v.disk, m).stage.target);
    }
  }

  lemma ResolvableKept(w: World, v: World)
    requires Resolvable(w) && Toward(w, v) && Orderly(v)
    ensures Resolvable(v)
  {
    hide Orderly, Toward, Good, Blocks;
    forall n: string
      ensures Good(v, n)
    {
      GoodKept(w, v, n);
    }
    forall n: string, m: string
      ensures !Blocks(v, n, m)
    {
      BlocksNot(w, v, n, m);
    }
  }

  // --- A complete recovery -------------------------------------------------------------

  lemma GoneStays(w: World, v: World, name: string, p: Path)
    requires Toward(w, v)
    ensures !InUploads(p) && p !in w.disk ==> p !in v.disk
    ensures LoadStage(w.disk, name).Missing? ==> LoadStage(v.disk, name).Missing?
  {
    hide Gives, LoadStage, Given, InUploads;
    assert StageKept(w, v, name);
    if !InUploads(p) {
      assert Lookup(v.disk, p) == Lookup(w.disk, p) || Lookup(v.disk, p) == None;
    }
  }

  /** The turn of an uncommitted stage, or of any stage if all can be resolved. */
  lemma {:induction false} Resolved(w: World, names: seq<string>, name: string, p: Path)
    requires Orderly(w) && name in names && (Resolvable(w) || (LoadStage(w.disk, name).Loaded? && !Settled(w, name)))
    ensures var v := Run(RecoverOps(w, names), w);
            LoadStage(v.disk, name).Missing? && (p in Gives(w, name) ==> p !in v.disk)
    decreases |names|
  {
    hide Orderly, Gives, LoadStage, InUploads, Run, Toward, RecoverStagePlan, Good, Resolvable, Settled;
    var first := RecoverStagePlan(w, names[0]).ops;
    assert first[..|first|] == first;
    var u := Run(first, w);
    var later := RecoverOps(u, names[1..]);
    RunConcat(first, later, w);
    ResolveOne(w, names[0], |first|);
    if names[0] == name {
      GoodIfUncommitted(w, name);
      assert later[..|later|] == later;
      RecoverPrefix(u, names[1..], |later|);
      GoneStays(u, Run(later, u), name, p);
      if p in Gives(w, name) {
        GivenOutside(w, p);
      }
    } else {
      assert SameStage(w, u, name);
      if Resolvable(w) {
        ResolvableKept(w, u);
      }
      Resolved(u, names[1..], name, p);
    }
  }

  lemma GoodIfUncommitted(w: World, name: string)
    requires Resolvable(w) || (LoadStage(w.disk, name).Loaded? && !Settled(w, name))
    ensures Good(w, name)
  {
    hide Orderly, Matches, Threatens, ManifestPath;
  }

  lemma {:induction false} RecoveryIsSound(w: World, names: seq<string>)
    requires Resolvable(w)
    ensures RecoverSound(w, names)
    decreases |names|
  {
    hide Orderly, Run, Toward, RecoverStagePlan, Good, Threatens, Resolvable;
    if names != [] {
      var first := RecoverStagePlan(w, names[0]).ops;
      assert first[..|first|] == first;
      ResolvableIsOrderly(w);
      ResolveOne(w, names[0], |first|);
      ResolvableAt(w, names[0]);
      ResolvableKept(w, Run(first, w));
      RecoveryIsSound(Run(first, w), names[1..]);
    }
  }

  lemma ResolvableIsOrderly(w: World)
    requires Resolvable(w)
    ensures Orderly(w)
  {
  }

  // --- Files that games show -----------------------------------------------------------

  /** Some cover file that a game shows is there before and gone after. */
  ghost predicate LosesShown(w: World, v: World) {
    exists g | g in w.db.covers :: var p := w.db.covers[g].path; IsCover(p) && p in w.disk && p !in v.disk
  }

  lemma LostFile(w: World, v: World) returns (p: Path)
    requires LosesShown(w, v)
    ensures IsCover(p) && Referenced(w.db, p) && p in w.disk && p !in v.disk
  {
    hide IsCover;
    var g :| g in w.db.covers && var p := w.db.covers[g].path; IsCover(p) && p in w.disk && p !in v.disk;
    p := w.db.covers[g].path;
  }

  lemma LosesFile(w: World, v: World, p: Path)
    requires IsCover(p) && Referenced(w.db, p) && p in w.disk && p !in v.disk
    ensures LosesShown(w, v)
  {
    hide IsCover;
    var g :| g in w.db.covers && w.db.covers[g].path == p;
  }

  /** At no step has recovery taken a file that a game shows, unless one of the listed stages threatens it. */
  lemma RecoverySparesShown(w: World, names: seq<string>, k: nat)
    requires Orderly(w) && k <= |RecoverOps(w, names)|
    ensures LosesShown(w, Run(RecoverOps(w, names)[..k], w)) ==> exists n | n in names :: Threatens(w, n)
  {
    hide Orderly, Gives, Run, Toward, RecoverOps, Threatens, Referenced, IsCover;
    RecoverPrefix(w, names, k);
    var v := Run(RecoverOps(w, names)[..k], w);
    if LosesShown(w, v) {
      var p := LostFile(w, v);
      CoversApart(p, "");
      assert Lookup(v.disk, p) != Lookup(w.disk, p);
      assert GivenBy(w, names, p);
      var n :| n in names && p in Gives(w, n);
      ShownAndGiven(w, n, p);
    }
  }

  /** A recovery takes a file that a game shows exactly if one of the listed stages threatens one. */
  lemma RecoveryLosesExactly(w: World, names: seq<string>)
    requires Orderly(w)
    ensures LosesShown(w, Run(RecoverOps(w, names), w)) <==> exists n | n in names :: Threatens(w, n)
  {
    hide Orderly, Gives, Run, RecoverOps, Threatens, Referenced, IsCover, LoadStage;
    var ops := RecoverOps(w, names);
    assert ops[..|ops|] == ops;
    RecoverySparesShown(w, names, |ops|);
    if n :| n in names && Threatens(w, n) {
      ThreatIsGiven(w, n);
      Resolved(w, names, n, LoadStage(w.disk, n).stage.target);
      LosesFile(w, Run(ops, w), LoadStage(w.disk, n).stage.target);
    }
  }

  // --- The final state -----------------------------------------------------------------

  function TokenOf(w: World, name: string): set<string> {
    if Settled(w, name) then {LoadStage(w.disk, name).stage.token} else {}
  }

  /** What one directory leaves behind in the end. */
  lemma TurnEffect(w: World, name: string, p: Path)
    requires Honest(w.disk) && Good(w, name)
    ensures var v := Run(RecoverStagePlan(w, name).ops, w);
            && v.db == w.db.(receipts := w.db.receipts - TokenOf(w, name))
            && Lookup(v.disk, p) == if StageRoot(name) <= p || p in Gives(w, name) then None else Lookup(w.disk, p)
  {
    hide Gives, LoadStage, FilesOf, Deletes, Run, Good, RecoverStagePlan, StageRoot, Apply, TailOf, Honest;
    DirectoryPlan(w, name);
    FilesAreGiven(w, name);
    var first, tail := Deletes(FilesOf(w, name)), TailOf(w, name);
    RunConcat(first, tail, w);
    FilesDeleted(w, FilesOf(w, name), p);
    TailEffect(w, Run(first, w), name, p);
  }

  lemma TailEffect(w: World, v: World, name: string, p: Path)
    requires v.db == w.db
    ensures var u := Run(TailOf(w, name), v);
            && u.db == w.db.(receipts := w.db.receipts - TokenOf(w, name))
            && Lookup(u.disk, p) == if StageRoot(name) <= p then None else Lookup(v.disk, p)
  {
    hide LoadStage, StageRoot;
    RunUpTo3(TailOf(w, name), v);
    StageRemoved(v, name, p);
  }

  /** The receipts of the committed stages among the listed ones. */
  ghost predicate TokenBy(w: World, names: seq<string>, t: string) {
    exists n | n in names :: t in TokenOf(w, n)
  }

  ghost predicate RootBy(names: seq<string>, p: Path) {
    exists n | n in names :: StageRoot(n) <= p
  }

  lemma SameToken(w: World, v: World, name: string)
    requires SameStage(w, v, name)
    ensures TokenOf(v, name) == TokenOf(w, name)
  {
    hide LoadStage, Gives, Committed;
  }

  lemma NothingAtMissing(w: World, name: string)
    requires LoadStage(w.disk, name).Missing?
    ensures Gives(w, name) == {} && TokenOf(w, name) == {}
  {
    hide LoadStage;
  }

  lemma RootFirst(names: seq<string>, p: Path)
    requires names != []
    ensures RootBy(names, p) <==> StageRoot(names[0]) <= p || RootBy(names[1..], p)
  {
    hide StageRoot;
  }

  lemma GivenFirst(w: World, v: World, names: seq<string>, p: Path)
    requires names != [] && LoadStage(v.disk, names[0]).Missing? && forall n: string | n != names[0] :: SameStage(w, v, n)
    ensures GivenBy(w, names, p) <==> p in Gives(w, names[0]) || GivenBy(v, names[1..], p)
  {
    hide LoadStage, Gives, Settled;
    NothingAtMissing(v, names[0]);
    if n :| n in names && p in Gives(w, n) {
      assert n == names[0] || (n in names[1..] && SameStage(w, v, n));
    }
    if n :| n in names[1..] && p in Gives(v, n) {
      assert n != names[0] && SameStage(w, v, n);
    }
    assert names[0] in names;
  }

  lemma TokenFirst(w: World, v: World, names: seq<string>, t: string)
    requires names != [] && LoadStage(v.disk, names[0]).Missing? && forall n: string | n != names[0] :: SameStage(w, v, n)
    ensures TokenBy(w, names, t) <==> t in TokenOf(w, names[0]) || TokenBy(v, names[1..], t)
  {
    hide LoadStage, SameStage, TokenOf;
    NothingAtMissing(v, names[0]);
    if n :| n in names && t in TokenOf(w, n) && n != names[0] {
      assert n in names[1..];
      SameToken(w, v, n);
    }
    if n :| n in names[1..] && t in TokenOf(v, n) {
      SameToken(w, v, n);
    }
    assert names[0] in names;
  }

  /** A complete recovery: the directories, the files their stages give up and the receipts of the committed ones are gone, and nothing else has changed. */
  lemma {:induction false} RecoverAll(w: World, names: seq<string>, p: Path, t: string)
    requires Resolvable(w)
    ensures RecoverSound(w, names)
    ensures var v := Run(RecoverOps(w, names), w);
            && v.db == w.db.(receipts := v.db.receipts)
            && (t in v.db.receipts <==> t in w.db.receipts && !TokenBy(w, names, t)) && (t in v.db.receipts ==> v.db.receipts[t] == w.db.receipts[t])
            && Lookup(v.disk, p) == if RootBy(names, p) || GivenBy(w, names, p) then None else Lookup(w.disk, p)
    decreases |names|
  {
    hide Orderly, Gives, LoadStage, Run, Toward, RecoverStagePlan, Good, Resolvable, TokenOf, GivenBy, TokenBy, RootBy, StageRoot, SameStage;
    RecoveryIsSound(w, names);
    if names == [] {
      RunNone(w);
      NothingBy(w, p, t);
    } else {
      var first := RecoverStagePlan(w, names[0]).ops;
      assert first[..|first|] == first;
      var u := Run(first, w);
      RunConcat(first, RecoverOps(u, names[1..]), w);
      ResolvableIsOrderly(w);
      OrderlyIsHonest(w);
      ResolveOne(w, names[0], |first|);
      ResolvableAt(w, names[0]);
      ResolvableKept(w, u);
      TurnEffect(w, names[0], p);
      RootFirst(names, p);
      GivenFirst(w, u, names, p);
      TokenFirst(w, u, names, t);
      RecoverAll(u, names[1..], p, t);
    }
  }

  lemma NothingBy(w: World, p: Path, t: string)
    ensures !RootBy([], p) && !GivenBy(w, [], p) && !TokenBy(w, [], t)
  {
  }

  /** The order in which recovery meets the directories makes no difference. */
  lemma AnyOrder(w: World, a: seq<string>, b: seq<string>)
    requires Resolvable(w) && forall n :: n in a <==> n in b
    ensures Run(RecoverOps(w, a), w) == Run(RecoverOps(w, b), w)
  {
    hide RecoverOps, Run, Resolvable, Gives, TokenOf, StageRoot;
    var u, v := Run(RecoverOps(w, a), w), Run(RecoverOps(w, b), w);
    RecoverAll(w, a, [], "");
    RecoverAll(w, b, [], "");
    forall p: Path
      ensures Lookup(u.disk, p) == Lookup(v.disk, p)
    {
      RecoverAll(w, a, p, "");
      RecoverAll(w, b, p, "");
    }
    SameDisk(u.disk, v.disk);
    forall t: string
      ensures t in u.db.receipts <==> t in v.db.receipts
      ensures t in u.db.receipts ==> u.db.receipts[t] == v.db.receipts[t]
    {
      RecoverAll(w, a, [], t);
      RecoverAll(w, b, [], t);
    }
    assert u.db.receipts == v.db.receipts;
  }

  // --- Recoveries that are cut short ---------------------------------------------------

  /** A recovery: the directories it finds and the steps it takes before it is cut short. */
  datatype Attempt = Attempt(names: seq<string>, steps: nat)

  function AfterAttempts(v: World, attempts: seq<Attempt>): World
    decreases |attempts|
  {
    if attempts == [] then v
    else AfterAttempts(Executed(RecoverOps(v, attempts[0].names), v, attempts[0].steps), attempts[1..])
  }

  lemma {:induction false} AttemptsMoveOn(w: World, attempts: seq<Attempt>)
    requires Orderly(w)
    ensures var v := AfterAttempts(w, attempts); Orderly(v) && Toward(w, v)
    decreases |attempts|
  {
    hide Orderly, Toward, Run, RecoverOps;
    if attempts == [] {
      TowardSelf(w);
    } else {
      var ops := RecoverOps(w, attempts[0].names);
      RecoverPrefix(w, attempts[0].names, Taken(attempts[0].steps, |ops|));
      var u := Executed(ops, w, attempts[0].steps);
      AttemptsMoveOn(u, attempts[1..]);
      TowardThen(w, u, AfterAttempts(u, attempts[1..]));
    }
  }

  /** The listing has every directory that holds a stage. */
  ghost predicate Listed(w: World, names: seq<string>) {
    forall n: string | LoadStage(w.disk, n).Loaded? :: n in names
  }

  /** One complete recovery from a state that recovery can come to. */
  lemma SettledFrom(w: World, last: World, names: seq<string>, p: Path)
    requires Resolvable(w) && Orderly(last) && Toward(w, last) && Listed(last, names) && !InUploads(p)
    ensures var v := Run(RecoverOps(last, names), last);
            && RecoverSound(last, names) && (forall n: string :: ManifestPath(n) !in v.disk)
            && v.db == w.db.(receipts := v.db.receipts)
            && Lookup(v.disk, p) == if Given(w, p) then None else Lookup(w.disk, p)
  {
    hide Orderly, Gives, LoadStage, InUploads, Run, Good, Resolvable, RecoverOps, Toward;
    var ops := RecoverOps(last, names);
    var v := Run(ops, last);
    assert ops[..|ops|] == ops;
    ResolvableKept(w, last);
    RecoveryIsSound(last, names);
    RecoverPrefix(last, names, |ops|);
    TowardThen(w, last, v);
    TowardMeans(w, v, p);
    if Given(last, p) {
      var n: string :| p in Gives(last, n);
      GivenIsLoaded(last, n, p);
      Resolved(last, names, n, p);
    } else {
      TowardMeans(w, last, p);
      GoneStays(last, v, "", p);
    }
    forall n: string
      ensures ManifestPath(n) !in v.disk
    {
      NoManifestLeft(last, names, n);
    }
  }

  lemma ListedLater(w: World, v: World, names: seq<string>)
    requires Toward(w, v) && Listed(w, names)
    ensures Listed(v, names)
  {
    hide Toward, LoadStage;
    forall n: string | LoadStage(v.disk, n).Loaded?
      ensures n in names
    {
      TowardKeeps(w, v, n);
    }
  }

  /** However many recoveries are cut short, one that completes takes exactly what the stages gave up at the start, and leaves no manifest. */
  lemma RecoverySettles(w: World, attempts: seq<Attempt>, names: seq<string>, p: Path)
    requires Resolvable(w) && Listed(w, names) && !InUploads(p)
    ensures var last := AfterAttempts(w, attempts);
            var v := Run(RecoverOps(last, names), last);
            && RecoverSound(last, names) && (forall n: string :: ManifestPath(n) !in v.disk)
            && v.db == w.db.(receipts := v.db.receipts)
            && Lookup(v.disk, p) == if Given(w, p) then None else Lookup(w.disk, p)
  {
    hide *;
    ResolvableIsOrderly(w);
    AttemptsMoveOn(w, attempts);
    ListedLater(w, AfterAttempts(w, attempts), names);
    SettledFrom(w, AfterAttempts(w, attempts), names, p);
  }

  /** From a state that recovery can come to: files that games show are lost exactly if some stage threatened one. */
  lemma LosesFrom(w: World, last: World, names: seq<string>)
    requires Toward(w, last) && Orderly(last) && Listed(last, names)
    ensures LosesShown(w, Run(RecoverOps(last, names), last)) <==> exists n: string :: Threatens(w, n)
  {
    hide Orderly, Gives, LoadStage, InUploads, Run, RecoverOps, Toward, Referenced, IsCover, Threatens;
    var ops := RecoverOps(last, names);
    var v := Run(ops, last);
    assert ops[..|ops|] == ops;
    RecoverPrefix(last, names, |ops|);
    TowardThen(w, last, v);
    if LosesShown(w, v) {
      var p := LostFile(w, v);
      CoversApart(p, "");
      TowardMeans(w, v, p);
      var n: string :| p in Gives(w, n);
      ShownAndGiven(w, n, p);
    }
    if n: string :| Threatens(w, n) {
      ThreatIsLost(w, last, names, n);
    }
  }

  /** However many recoveries are cut short, files that games show are lost exactly if some stage threatened one at the start. */
  lemma RecoveriesLoseExactly(w: World, attempts: seq<Attempt>, names: seq<string>)
    requires Orderly(w) && Listed(w, names)
    ensures var last := AfterAttempts(w, attempts);
            LosesShown(w, Run(RecoverOps(last, names), last)) <==> exists n: string :: Threatens(w, n)
  {
    hide *;
    AttemptsMoveOn(w, attempts);
    ListedLater(w, AfterAttempts(w, attempts), names);
    LosesFrom(w, AfterAttempts(w, attempts), names);
  }

  lemma ThreatIsLost(w: World, last: World, names: seq<string>, name: string)
    requires Threatens(w, name) && Toward(w, last) && Orderly(last) && Listed(last, names)
    ensures LosesShown(w, Run(RecoverOps(last, names), last))
  {
    hide Orderly, Gives, LoadStage, InUploads, Run, RecoverOps, Toward, Referenced, IsCover, Threatens;
    var ops := RecoverOps(last, names);
    var v := Run(ops, last);
    assert ops[..|ops|] == ops;
    ThreatIsGiven(w, name);
    var p := LoadStage(w.disk, name).stage.target;
    CoversApart(p, "");
    TowardMeans(w, last, p);
    SameReferred(w.db, last.db, p);
    if p in last.disk {
      assert Given(last, p);
      var n: string :| p in Gives(last, n);
      ShownAndGiven(last, n, p);
      ThreatIsGiven(last, n);
      Resolved(last, names, n, p);
    } else {
      RecoverPrefix(last, names, |ops|);
      GoneStays(last, v, "", p);
    }
    LosesFile(w, v, p);
  }

  lemma TowardMeans(w: World, v: World, p: Path)
    requires Toward(w, v) && !InUploads(p)
    ensures v.db == w.db.(receipts := v.db.receipts)
    ensures !Given(w, p) ==> Lookup(v.disk, p) == Lookup(w.disk, p)
    ensures Given(w, p) ==> Given(v, p) || Lookup(v.disk, p) == None
  {
    hide Given, StageKept;
  }

  lemma GivenIsLoaded(w: World, name: string, p: Path)
    requires p in Gives(w, name)
    ensures LoadStage(w.disk, name).Loaded?
  {
    hide LoadStage, GivesOf;
  }

  lemma NoManifestLeft(w: World, names: seq<string>, name: string)
    requires Resolvable(w) && Listed(w, names)
    ensures ManifestPath(name) !in Run(RecoverOps(w, names), w).disk
  {
    hide Orderly, Gives, InUploads, Run, Good, Resolvable, RecoverOps, Toward, ManifestPath, LoadStage;
    ResolvableAt(w, name);
    ResolvableIsOrderly(w);
    GoodIsNoError(w, name);
    var ops := RecoverOps(w, names);
    if LoadStage(w.disk, name).Loaded? {
      Resolved(w, names, name, []);
    } else {
      assert ops[..|ops|] == ops;
      RecoverPrefix(w, names, |ops|);
      GoneStays(w, Run(ops, w), name, []);
    }
    MissingIsAbsent(Run(ops, w).disk, name);
  }

  lemma GoodIsNoError(w: World, name: string)
    requires Good(w, name)
    ensures !LoadStage(w.disk, name).Invalid?
  {
    hide LoadStage, Matches;
  }

  lemma MissingIsAbsent(disk: Disk, name: string)
    ensures LoadStage(disk, name).Missing? <==> ManifestPath(name) !in disk
  {
    hide ManifestPath, ValidStage;
  }

  // --- The undo of one stage -----------------------------------------------------------

  lemma RollbackEffect(w: World, st: Stage, p: Path)
    requires Honest(w.disk) && ValidStage(st)
    ensures var v := Run(RollbackPlan(w, st).ops, w);
            && RollbackPlan(w, st).ok && v.db == w.db
            && Lookup(v.disk, p) == if StageRoot(st.name) <= p || (st.created && p == st.target) then None else Lookup(w.disk, p)
  {
    hide IsCover, StageRoot;
    assert st.target in w.disk ==> Verified(w.disk, st.target);
    RunUpTo3(RollbackPlan(w, st).ops, w);
    var v := if st.created && st.target in w.disk then Apply(Delete(st.target), w) else w;
    StageRemoved(v, st.name, p);
  }

  /** Undoing a stage takes a file that a game shows exactly if the stage brought a file that is there and that some game shows: the undo asks no game. */
  lemma RollbackTakesShownFile(w: World, st: Stage)
    requires Honest(w.disk) && ValidStage(st)
    ensures LosesShown(w, Run(RollbackPlan(w, st).ops, w)) <==> st.created && st.target in w.disk && Referenced(w.db, st.target)
  {
    hide IsCover, Referenced, Honest, StageRoot, RollbackPlan, Run;
    var v := Run(RollbackPlan(w, st).ops, w);
    RollbackEffect(w, st, st.target);
    if LosesShown(w, v) {
      var p := LostFile(w, v);
      RollbackEffect(w, st, p);
      CoversApart(p, st.name);
    }
    if st.created && st.target in w.disk && Referenced(w.db, st.target) {
      LosesFile(w, v, st.target);
    }
  }
}
