/** What an import leaves alone: the assets other games have on record, and games it was not asked to replace. */
module ImportSparing {
  import opened Storage
  import opened Text
  import opened ImportSwaps
  import opened ImportRecovery
  import opened GameImports
  import opened ImportStages

  // --- Refusals ------------------------------------------------------------------------

  lemma {:induction false} JoinedAppend(p: Path, rest: Path)
    requires p != [] && rest != []
    ensures Joined(p + rest) == Joined(p) + "/" + Joined(rest)
  {
    if |p| == 1 {
      assert (p + rest)[1..] == rest;
    } else {
      assert (p + rest)[1..] == p[1..] + rest;
      JoinedAppend(p[1..], rest);
      assert Joined(p + rest) == p[0] + "/" + (Joined(p[1..]) + "/" + Joined(rest));
    }
  }

  lemma BelowIsShared(others: seq<Path>, q: Path, p: Path)
    requires q in others && p != [] && p <= q
    ensures Shared(others, p)
  {
    var i :| 0 <= i < |others| && others[i] == q;
    if p != q {
      var rest := q[|p|..];
      assert q == p + rest;
      JoinedAppend(p, rest);
      assert (Joined(p) + "/") <= Joined(q);
      assert StartsLike(Joined(others[i]), Joined(p) + "/");
    }
  }

  /** An import changes nothing if another game has a row for its cover or bundle path, or for one below. */
  lemma OwnedPathsRefuse(w: World, imp: Import, fuse: int, again: int, answer: Answer, q: Path)
    requires q in imp.others && (["covers", imp.slug] <= q || ["playables", imp.slug] <= q)
    ensures ImportRun(w, imp, fuse, again, answer) == w
  {
    hide Shared;
    if ["covers", imp.slug] <= q {
      BelowIsShared(imp.others, q, ["covers", imp.slug]);
    }
    if ["playables", imp.slug] <= q {
      BelowIsShared(imp.others, q, ["playables", imp.slug]);
    }
    RefusedRun(w, imp, fuse, again, answer);
  }

  lemma RefusedRun(w: World, imp: Import, fuse: int, again: int, answer: Answer)
    requires Refused(w, imp)
    ensures ImportRun(w, imp, fuse, again, answer) == w
  {
    hide Refused;
    RunNone(w);
    assert ImportOps(w, imp)[..Taken(fuse, 0)] == [];
  }

  /** An import changes nothing if the game is there and is not to be replaced, or if a source lies outside the workspace. */
  lemma UnaskedRefuse(w: World, imp: Import, fuse: int, again: int, answer: Answer)
    requires (imp.game in w.db.games && !imp.replace) || imp.cover == [] || imp.cover[0] != ".atri-imports"
             || (imp.bundle.Some? && (imp.bundle.value == [] || imp.bundle.value[0] != ".atri-imports"))
    ensures ImportRun(w, imp, fuse, again, answer) == w
  {
    hide Shared;
    RefusedRun(w, imp, fuse, again, answer);
  }

  // --- Exactly when an import succeeds -------------------------------------------------

  /** Small letters, digits and dashes. */
  predicate PlainSlug(s: string) {
    forall c | c in s :: 'a' <= c <= 'z' || '0' <= c <= '9' || c == '-'
  }

  function Lowered(s: string): (l: string)
    ensures |l| == |s|
  {
    seq(|s|, i requires 0 <= i < |s| => Lower(s[i]))
  }

  function LoweredPath(p: Path): (l: Path)
    ensures |l| == |p|
  {
    seq(|p|, i requires 0 <= i < |p| => Lowered(p[i]))
  }

  /** No segment has a slash in it. */
  predicate Segmented(p: Path) {
    p != [] && forall i | 0 <= i < |p| :: '/' !in p[i]
  }

  lemma LoweredConcat(a: string, b: string)
    ensures Lowered(a + b) == Lowered(a) + Lowered(b) && Lowered("/") == "/"
  {
  }

  lemma {:induction false} LoweredJoined(p: Path)
    ensures Lowered(Joined(p)) == Joined(LoweredPath(p))
  {
    hide Lowered;
    if |p| == 0 {
      assert Lowered("") == "";
    } else if |p| > 1 {
      LoweredJoined(p[1..]);
      LoweredConcat(p[0], "/" + Joined(p[1..]));
      LoweredConcat("/", Joined(p[1..]));
      assert LoweredPath(p)[1..] == LoweredPath(p[1..]);
      assert p[0] + ("/" + Joined(p[1..])) == Joined(p);
      assert Lowered(p[0]) + ("/" + Joined(LoweredPath(p[1..]))) == Joined(LoweredPath(p));
    }
  }

  lemma LoweredSegments(p: Path)
    requires Segmented(p)
    ensures Segmented(LoweredPath(p))
  {
    forall i | 0 <= i < |p|
      ensures '/' !in Lowered(p[i])
    {
      forall k | 0 <= k < |p[i]|
        ensures Lower(p[i][k]) != '/'
      {
        assert p[i][k] in p[i];
      }
    }
  }

  /** A pattern without wildcards and capitals matches the strings that begin with it when written small. */
  lemma LikeIsPrefix(s: string, pattern: string)
    requires forall i | 0 <= i < |pattern| :: pattern[i] != '_' && Lower(pattern[i]) == pattern[i]
    ensures StartsLike(s, pattern) <==> pattern <= Lowered(s)
  {
    hide Lower;
    var l := Lowered(s);
    if pattern <= l {
      forall i | 0 <= i < |pattern|
        ensures pattern[i] == Lower(s[i])
      {
        assert pattern[i] == l[i];
      }
    }
    if StartsLike(s, pattern) {
      assert forall i | 0 <= i < |pattern| :: pattern[i] == l[i];
    }
  }

  lemma SameFirst(s: string, a: string, t: string, b: string)
    requires '/' !in s && '/' !in t
    ensures (s + "/" + a) <= (t + "/" + b) <==> s == t && a <= b
  {
    var x, y := s + "/" + a, t + "/" + b;
    if x <= y {
      SlashAt(s, a, t, b);
      assert s == x[..|s|] && t == y[..|t|];
      assert x[|s| + 1..] == a && y[|t| + 1..] == b;
    }
  }

  lemma SlashAt(s: string, a: string, t: string, b: string)
    requires '/' !in s && '/' !in t && (s + "/" + a) <= (t + "/" + b)
    ensures |s| == |t|
  {
    var x, y := s + "/" + a, t + "/" + b;
    forall i | 0 <= i < |s|
      ensures x[i] in s
    {
      assert x[i] == s[i];
    }
    forall i | 0 <= i < |t|
      ensures y[i] in t
    {
      assert y[i] == t[i];
    }
    assert x[|s|] == '/' && y[|t|] == '/';
    assert |x| <= |y| && y[|s|] == x[|s|];
  }

  lemma NoSlashInside(s: string, a: string, t: string)
    requires '/' !in t
    ensures !((s + "/" + a) <= t)
  {
    var x := s + "/" + a;
    assert x[|s|] == '/';
    assert forall i | 0 <= i < |t| :: t[i] in t;
  }

  lemma FirstOfJoined(s: string, rest: string, p: Path)
    requires '/' !in s && Segmented(p)
    ensures (s + "/" + rest) <= Joined(p) <==> |p| > 1 && p[0] == s && rest <= Joined(p[1..])
  {
    hide Joined;
    JoinedStep(p);
    if |p| == 1 {
      NoSlashInside(s, rest, p[0]);
    } else {
      SameFirst(s, rest, p[0], Joined(p[1..]));
    }
  }

  /** Below a path of two segments lie the paths that go on after it. */
  lemma JoinedPrefix(a: string, b: string, q: Path)
    requires '/' !in a && '/' !in b && Segmented(q)
    ensures (a + "/" + b + "/") <= Joined(q) <==> |q| > 2 && [a, b] <= q
  {
    hide Joined;
    assert a + "/" + b + "/" == a + "/" + (b + "/" + "");
    FirstOfJoined(a, b + "/" + "", q);
    if |q| > 1 {
      var rest := q[1..];
      assert forall i | 0 <= i < |rest| :: rest[i] == q[i + 1];
      FirstOfJoined(b, "", rest);
      TwoFirst(a, b, q);
    }
  }

  lemma TwoFirst(a: string, b: string, q: Path)
    ensures [a, b] <= q <==> |q| >= 2 && q[0] == a && q[1..][0] == b
  {
  }

  lemma JoinedStep(p: Path)
    requires p != []
    ensures Joined(p) == if |p| == 1 then p[0] else p[0] + "/" + Joined(p[1..])
  {
  }

  /** A row claims a path if it is that path, or continues it when written small. */
  predicate Claims(q: Path, p: Path) {
    q == p || (|q| > |p| && p <= LoweredPath(q))
  }

  lemma SlugLetters(s: string)
    requires PlainSlug(s)
    ensures '/' !in s && forall c | c in s :: c != '_' && Lower(c) == c
  {
  }

  lemma ClaimsExactly(dir: string, slug: string, q: Path)
    requires PlainSlug(dir) && PlainSlug(slug) && Segmented(q)
    ensures q == [dir, slug] || StartsLike(Joined(q), Joined([dir, slug]) + "/") <==> Claims(q, [dir, slug])
  {
    hide PlainSlug, Lowered, StartsLike, Segmented;
    var pattern := dir + "/" + slug + "/";
    JoinedStep([dir, slug]);
    JoinedStep([slug]);
    assert [dir, slug][1..] == [slug];
    SlugLetters(dir);
    SlugLetters(slug);
    forall i | 0 <= i < |pattern|
      ensures pattern[i] != '_' && Lower(pattern[i]) == pattern[i]
    {
      assert pattern[i] in dir || pattern[i] in slug || pattern[i] == '/';
    }
    LikeIsPrefix(Joined(q), pattern);
    LoweredJoined(q);
    LoweredSegments(q);
    JoinedPrefix(dir, slug, LoweredPath(q));
  }

  lemma SharedExactly(others: seq<Path>, dir: string, slug: string)
    requires PlainSlug(dir) && PlainSlug(slug) && forall q | q in others :: Segmented(q)
    ensures Shared(others, [dir, slug]) <==> exists q | q in others :: Claims(q, [dir, slug])
  {
    hide PlainSlug, Claims, StartsLike, Segmented;
    forall q | q in others
      ensures q == [dir, slug] || StartsLike(Joined(q), Joined([dir, slug]) + "/") <==> Claims(q, [dir, slug])
    {
      ClaimsExactly(dir, slug, q);
    }
    if i :| 0 <= i < |others| && (others[i] == [dir, slug] || StartsLike(Joined(others[i]), Joined([dir, slug]) + "/")) {
      assert others[i] in others;
    }
    if q :| q in others && Claims(q, [dir, slug]) {
      var i :| 0 <= i < |others| && others[i] == q;
    }
  }

  /** The import is asked for: the game is new or may be replaced, and the sources come from the workspace. */
  predicate Asked(w: World, imp: Import) {
    && (imp.game !in w.db.games || imp.replace)
    && imp.cover != [] && imp.cover[0] == ".atri-imports"
    && (imp.bundle.Some? ==> imp.bundle.value != [] && imp.bundle.value[0] == ".atri-imports")
  }

  /** The package has a cover with an extension, and its bundle, if any, is a directory. */
  predicate Usable(disk: Disk, imp: Import) {
    && imp.cover in disk && disk[imp.cover].File? && imp.cover != [] && '.' in imp.cover[|imp.cover| - 1]
    && (imp.bundle.Some? ==> imp.bundle.value in disk && (disk[imp.bundle.value].Directory? || disk[imp.bundle.value].Folder?))
  }

  lemma RefusedExactly(w: World, imp: Import)
    requires PlainSlug(imp.slug) && forall q | q in imp.others :: Segmented(q)
    ensures !Refused(w, imp) <==>
      Asked(w, imp) && forall q | q in imp.others :: !Claims(q, ["covers", imp.slug]) && !Claims(q, ["playables", imp.slug])
  {
    hide Shared, Claims, Segmented;
    SharedExactly(imp.others, "covers", imp.slug);
    SharedExactly(imp.others, "playables", imp.slug);
  }

  lemma UninterruptedCommits(w: World, imp: Import, again: int, readable: bool)
    requires Ready(w, imp) && !Refused(w, imp) && Complete(w.disk, imp)
    ensures Committed(ImportRun(w, imp, -1, again, Answer(true, readable)), imp.token)
  {
    hide *;
    var p, items := PrepareOps(w, imp), [CoverItem(imp), BundleItem(imp)];
    var v := Run(p, w);
    var a := ActivateOps(v, items);
    var u := Run(a, v);
    var c := Apply(Commit(imp), u);
    RunAll(p, w);
    RunAll(a, v);
    RunAll([Commit(imp)], u);
    RunOne(Commit(imp), u);
    RanThen(p, a, a, w, -1, v, -1, true, u, -1, true);
    RanThen(p + a, [Commit(imp)], [Commit(imp)], w, -1, u, -1, true, c, -1, true);
    RunAll([DropStage(imp)], c);
    var x := Run([DropStage(imp)], c);
    DoneForever(p, p + a);
    CommitHeard(w, imp, -1, again, Answer(true, readable), v, c, -1, x, -1, true);
    CommitShows(imp, u, -1, c, -1, x, -1, true);
  }

  lemma RunAll(ops: seq<Op>, w: World)
    ensures Ran(ops, w, -1, Run(ops, w), -1, true)
  {
    assert ops[..|ops|] == ops;
  }

  lemma DoneForever(a: seq<Op>, b: seq<Op>)
    ensures Done(a, -1) && Done(b, -1)
  {
  }

  lemma NotCommitted(w: World, imp: Import, again: int, readable: bool)
    requires Ready(w, imp) && (Refused(w, imp) || !Complete(w.disk, imp))
    ensures !Committed(ImportRun(w, imp, -1, again, Answer(true, readable)), imp.token)
  {
    hide *;
    UncommittedBefore(w, imp);
    if Refused(w, imp) {
      RefusedRun(w, imp, -1, again, Answer(true, readable));
    } else {
      DoneForever(PrepareOps(w, imp), []);
      PlainRun(w, imp, -1, again, Answer(true, readable));
      CrashedRun(w, imp, -1);
      SameRowsWithout(w, imp, Executed(ImportOps(w, imp), w, -1));
    }
  }

  lemma UncommittedBefore(w: World, imp: Import)
    requires Ready(w, imp)
    ensures !Committed(w, imp.token)
  {
    hide Committed;
  }

  lemma SameRowsWithout(w: World, imp: Import, c: World)
    requires CrashState(w, imp, c) && !Complete(w.disk, imp)
    ensures Committed(c, imp.token) ==> Committed(w, imp.token)
  {
    hide Complete, Slots, Sweepable;
  }

  /** An import that nothing interrupts succeeds exactly if it is asked for, no other game claims its paths, and the package is usable; if not, no receipt is written. */
  lemma ImportSucceedsExactly(w: World, imp: Import, again: int, readable: bool)
    requires Ready(w, imp) && PlainSlug(imp.slug) && forall q | q in imp.others :: Segmented(q)
    ensures imp.token in ImportRun(w, imp, -1, again, Answer(true, readable)).db.packages.Values <==>
      && Asked(w, imp) && Usable(w.disk, imp)
      && forall q | q in imp.others :: !Claims(q, ["covers", imp.slug]) && !Claims(q, ["playables", imp.slug])
  {
    hide Ready, Refused, Claims, Segmented, PlainSlug, ImportRun, Asked;
    RefusedExactly(w, imp);
    if !Refused(w, imp) && Complete(w.disk, imp) {
      UninterruptedCommits(w, imp, again, readable);
    } else {
      NotCommitted(w, imp, again, readable);
    }
  }

  // --- Every state of an import and its recoveries -------------------------------------

  /** There is nothing to undo, or the one stage can be undone; outside the workspace only the two targets may have changed. */
  ghost predicate Underway(w: World, imp: Import, c: World) {
    var slots := Slots(w.disk, imp);
    (Sweepable(c) || Pending(c, imp.stage, slots, imp.token)) && SameButTargets(w.disk, c.disk, slots)
  }

  lemma CrashIsUnderway(w: World, imp: Import, c: World)
    requires CrashState(w, imp, c)
    ensures Underway(w, imp, c)
  {
    hide Slots, Complete, Sweepable, Pending, SameButTargets, AllPlaced, AllActivating, TargetsHold, SameOutside, Committed;
    if SameOutside(w.disk, c.disk) {
      OutsideButTargets(w.disk, c.disk, Slots(w.disk, imp));
    }
  }

  /** Wherever an import stops, whatever of its undo is possible and whatever is heard of its commit. */
  lemma ImportUnderway(w: World, imp: Import, fuse: int, again: int, answer: Answer)
    requires Ready(w, imp)
    ensures Underway(w, imp, ImportRun(w, imp, fuse, again, answer))
  {
    hide Run, PrepareOps, Refused, Complete, Ready, CrashState, Underway, ImportOps, ImportRun;
    var p := PrepareOps(w, imp);
    if !Refused(w, imp) && Done(p, fuse) && Complete(w.disk, imp) {
      ReachedUnderway(w, imp, fuse, again, answer);
    } else {
      if Refused(w, imp) || Done(p, fuse) {
        PlainRun(w, imp, fuse, again, answer);
        CrashedRun(w, imp, fuse);
      } else {
        AbortedPreparation(w, imp, fuse, again, answer);
      }
      CrashIsUnderway(w, imp, ImportRun(w, imp, fuse, again, answer));
    }
  }

  lemma PlainRun(w: World, imp: Import, fuse: int, again: int, answer: Answer)
    requires Refused(w, imp) || (Done(PrepareOps(w, imp), fuse) && !Complete(w.disk, imp))
    ensures ImportRun(w, imp, fuse, again, answer) == Executed(ImportOps(w, imp), w, fuse)
  {
    hide Refused, Executed, ImportOps, Complete, PrepareOps;
  }

  lemma ReachedUnderway(w: World, imp: Import, fuse: int, again: int, answer: Answer)
    requires Ready(w, imp) && !Refused(w, imp) && Complete(w.disk, imp) && Done(PrepareOps(w, imp), fuse)
    ensures Underway(w, imp, ImportRun(w, imp, fuse, again, answer))
  {
    hide Run, PrepareOps, Slots, ActivateOps, Recorded, Refused, Complete, Ready, CommitOps, CoverItem, BundleItem, RollbackOps, StageRoot, ManifestPath, RecoverStageOps, CrashState, Activated, Commit, DropStage, ImportOps, Committed, Underway;
    var left := ImportRun(w, imp, fuse, again, answer);
    var p := PrepareOps(w, imp);
    var items := [CoverItem(imp), BundleItem(imp)];
    var prepared := Run(p, w);
    var a := ActivateOps(prepared, items);
    var n := Taken(fuse, |p| + |a| + 1);
    StoppedImport(w, imp, n);
    CrashStates(w, imp, n);
    var c := Run(ImportOps(w, imp)[..n], w);
    var ops := p + a + [Commit(imp)];
    assert Executed(ops, w, fuse) == c;
    if n < |p| + |a| || (n == |p| + |a| && answer.readable) {
      UndoneActivation(w, imp, n - |p|);
      FirstStops(w, imp, c);
      assert n < |p| + |a| ==> Executed(ImportOps(w, imp), w, fuse) == c;
      assert left == Executed(RecoverStageOps(c, imp.stage), c, again);
      UndoUnderway(w, imp, c, again);
    } else if n == |p| + |a| + 1 && answer.readable && !answer.heard {
      CommitInSteps(w, imp);
      CrashStates(w, imp, n + 1);
      DroppedOrNot(imp, c, again);
      CrashIsUnderway(w, imp, left);
    } else {
      CrashedRun(w, imp, fuse);
      CrashIsUnderway(w, imp, left);
    }
  }

  lemma UndoUnderway(w: World, imp: Import, c: World, again: int)
    requires Activated(w, imp, c)
    ensures Underway(w, imp, Executed(RecoverStageOps(c, imp.stage), c, again))
  {
    hide Run, Slots, Pending, SameButTargets, AllActivating, AllPlaced, StageRoot, RecoverStageOps, Listed, Landed, Sweepable;
    var slots := Slots(w.disk, imp);
    var ops := RecoverStageOps(c, imp.stage);
    PendingStage(c, imp.stage, slots, imp.token, [imp.stage], Taken(again, |ops|));
    SameButTargetsJoin(w.disk, c.disk, Executed(ops, c, again).disk, slots);
  }

  /** A recovery up to any step. */
  lemma RecoveryUnderway(w: World, imp: Import, c: World, names: seq<string>, steps: int)
    requires Underway(w, imp, c)
    ensures Underway(w, imp, Executed(RecoverOps(c, names), c, steps))
  {
    hide Run, Slots, Pending, SameButTargets, SameOutside, RecoverOps, Listed, Landed, Sweepable;
    var slots := Slots(w.disk, imp);
    var ops := RecoverOps(c, names);
    var k := Taken(steps, |ops|);
    var v := Executed(ops, c, steps);
    if Sweepable(c) {
      Sweep(c, names, k);
      OutsideButTargets(c.disk, v.disk, slots);
    } else {
      RecoverPrefix(c, imp.stage, slots, imp.token, names, k);
    }
    SameButTargetsJoin(w.disk, c.disk, v.disk, slots);
  }

  /** Recoveries one after another, each over the directories it finds and cut short after some steps, or not, for a negative number. */
  datatype Attempt = Attempt(names: seq<string>, steps: int)

  function AfterAttempts(c: World, attempts: seq<Attempt>): World
    decreases |attempts|
  {
    if attempts == [] then c
    else AfterAttempts(Executed(RecoverOps(c, attempts[0].names), c, attempts[0].steps), attempts[1..])
  }

  lemma {:induction false} AttemptsUnderway(w: World, imp: Import, c: World, attempts: seq<Attempt>)
    requires Underway(w, imp, c)
    ensures Underway(w, imp, AfterAttempts(c, attempts))
    decreases |attempts|
  {
    hide Underway, RecoverOps, Executed;
    if attempts != [] {
      RecoveryUnderway(w, imp, c, attempts[0].names, attempts[0].steps);
      AttemptsUnderway(w, imp, Executed(RecoverOps(c, attempts[0].names), c, attempts[0].steps), attempts[1..]);
    }
  }

  /** Outside the workspace nothing but the two targets ever changes. */
  lemma OnlyTargetsChange(w: World, imp: Import, c: World, p: Path)
    requires Underway(w, imp, c) && (p == [] || p[0] != ".atri-imports") && p != ["covers", imp.slug] && p != ["playables", imp.slug]
    ensures Lookup(c.disk, p) == Lookup(w.disk, p)
  {
    hide Slots, Sweepable, Pending, IsSpot;
    FinalPath(w.disk, imp, p);
  }

  lemma SweepsFromReady(w: World, imp: Import)
    requires Ready(w, imp)
    ensures Sweepable(w)
  {
    hide ManifestPath, StageRoot, Committed;
  }

  lemma {:induction false} SweepingKeeps(c: World, attempts: seq<Attempt>)
    requires Sweepable(c)
    ensures Sweepable(AfterAttempts(c, attempts)) && SameOutside(c.disk, AfterAttempts(c, attempts).disk)
    decreases |attempts|
  {
    hide Sweepable, SameOutside, RecoverOps, Run;
    SameOutsideJoin(c.disk, c.disk, c.disk);
    if attempts != [] {
      var ops := RecoverOps(c, attempts[0].names);
      var v := Executed(ops, c, attempts[0].steps);
      Sweep(c, attempts[0].names, Taken(attempts[0].steps, |ops|));
      SweepingKeeps(v, attempts[1..]);
      SameOutsideJoin(c.disk, v.disk, AfterAttempts(v, attempts[1..]).disk);
    }
  }

  /** Wherever an import stops, whatever of its undo is possible and is heard of its commit, and after any recoveries, cut short or not: nothing at or below a path that another game has on record has changed. */
  lemma OwnedAssetsAreSpared(w: World, imp: Import, fuse: int, again: int, answer: Answer, attempts: seq<Attempt>, q: Path, p: Path)
    requires Ready(w, imp) && q in imp.others && |q| >= 2 && q[0] != ".atri-imports" && q <= p
    ensures var stopped := ImportRun(w, imp, fuse, again, answer);
            var last := AfterAttempts(stopped, attempts);
            Lookup(stopped.disk, p) == Lookup(w.disk, p) && Lookup(last.disk, p) == Lookup(w.disk, p)
  {
    hide Underway, Ready, ImportRun, AfterAttempts, Sweepable, SameOutside;
    var stopped := ImportRun(w, imp, fuse, again, answer);
    assert p[0] == q[0];
    if ["covers", imp.slug] <= q || ["playables", imp.slug] <= q {
      OwnedPathsRefuse(w, imp, fuse, again, answer, q);
      SweepsFromReady(w, imp);
      SweepingKeeps(w, attempts);
      OutsideStays(w.disk, AfterAttempts(w, attempts).disk, p);
    } else {
      NoTarget(imp.slug, q, p);
      ImportUnderway(w, imp, fuse, again, answer);
      AttemptsUnderway(w, imp, stopped, attempts);
      OnlyTargetsChange(w, imp, stopped, p);
      OnlyTargetsChange(w, imp, AfterAttempts(stopped, attempts), p);
    }
  }

  lemma OutsideStays(a: Disk, b: Disk, p: Path)
    requires SameOutside(a, b) && p != [] && p[0] != ".atri-imports"
    ensures Lookup(a, p) == Lookup(b, p)
  {
  }

  lemma NoTarget(slug: string, q: Path, p: Path)
    requires |q| >= 2 && q <= p && !(["covers", slug] <= q) && !(["playables", slug] <= q)
    ensures p != ["covers", slug] && p != ["playables", slug]
  {
    if |p| == 2 {
      assert q == p;
    }
  }
}
