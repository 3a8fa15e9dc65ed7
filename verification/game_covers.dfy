/** Uploaded covers: files named after their digest, receipts in the database, and stages that recovery finishes or undoes. */
module GameCovers {
  import opened Wrappers
  import opened Storage
  import opened Text

  const UPLOADS: string := ".atri-cover-uploads"

  function StageRoot(stage: string): Path {
    [UPLOADS, stage]
  }

  function ManifestPath(stage: string): Path {
    StageRoot(stage) + ["install.json"]
  }

  function TemporaryPath(stage: string): Path {
    StageRoot(stage) + ["install.json.tmp"]
  }

  function IncomingPath(stage: string): Path {
    StageRoot(stage) + ["incoming"]
  }

  predicate InUploads(p: Path) {
    |p| > 0 && p[0] == UPLOADS
  }

  // --- Cover files ---------------------------------------------------------------------

  predicate HexDigit(c: char) {
    '0' <= c <= '9' || 'a' <= c <= 'f'
  }

  /** The file name of a cover: a prefix, the digest of the content in 64 hexadecimal digits, and an extension. */
  predicate CoverName(s: string) {
    && |s| > 70 && s[..6] == "cover-" && (forall i | 6 <= i < 70 :: HexDigit(s[i]))
    && s[70..] in [".avif", ".jpg", ".png", ".webp"]
  }

  predicate IsCover(p: Path) {
    |p| == 3 && p[0] == "covers" && SafeBundleName(p[1]) && CoverName(p[2])
  }

  function DigestOf(p: Path): Tree
    requires IsCover(p)
  {
    p[2][6..70]
  }

  /** The file is there and its content is what its name says; a file is given by the digest of its content. */
  predicate Verified(disk: Disk, p: Path) {
    IsCover(p) && Lookup(disk, p) == Some(File(DigestOf(p)))
  }

  predicate ReferencedByOther(db: Database, p: Path, game: string) {
    exists g | g in db.covers :: g != game && db.covers[g].path == p
  }

  predicate Referenced(db: Database, p: Path) {
    exists g | g in db.covers :: db.covers[g].path == p
  }

  /** The path that is made for a cover of a game. */
  predicate IsManaged(p: Path, slug: string, digest: string, extension: string) {
    && SafeBundleName(slug) && |digest| == 64 && (forall c | c in digest :: c in "0123456789abcdef") && extension in [".avif", ".jpg", ".png", ".webp"]
    && p == ["covers", slug, "cover-" + digest + extension]
  }

  lemma HexDigits(c: char)
    ensures HexDigit(c) <==> c in "0123456789abcdef"
  {
    if HexDigit(c) {
      var hex := "0123456789abcdef";
      var k := if c <= '9' then c as int - '0' as int else c as int - 'a' as int + 10;
      assert 0 <= k < 16 && hex[k] == c;
    }
  }

  lemma CoverIsManaged(p: Path) returns (slug: string, digest: string, extension: string)
    requires IsCover(p)
    ensures IsManaged(p, slug, digest, extension)
  {
    hide SafeBundleName, HexDigit;
    slug, digest, extension := p[1], p[2][6..70], p[2][70..];
    assert p[2] == "cover-" + p[2][6..70] + p[2][70..];
    assert p == ["covers", p[1], "cover-" + p[2][6..70] + p[2][70..]];
    forall i | 0 <= i < 64
      ensures p[2][6..70][i] in "0123456789abcdef"
    {
      assert p[2][6..70][i] == p[2][i + 6];
      HexDigits(p[2][i + 6]);
    }
  }

  lemma ManagedIsCover(p: Path, slug: string, digest: string, extension: string)
    requires IsManaged(p, slug, digest, extension)
    ensures IsCover(p) && DigestOf(p) == digest
  {
    hide SafeBundleName, HexDigit;
    var name := p[2];
    assert |extension| > 0;
    assert name[..6] == "cover-" && name[6..70] == digest && name[70..] == extension;
    forall i | 6 <= i < 70
      ensures HexDigit(name[i])
    {
      assert name[i] == digest[i - 6];
      HexDigits(name[i]);
    }
  }

  /** The cover paths are exactly those made of a plain name, a digest of 64 hexadecimal digits and one of four extensions, and the digest can be read back. */
  lemma CoverPathsExactly(p: Path)
    ensures IsCover(p) <==> exists slug: string, digest: string, extension: string :: IsManaged(p, slug, digest, extension)
    ensures forall slug: string, digest: string, extension: string | IsManaged(p, slug, digest, extension) :: DigestOf(p) == digest
  {
    hide IsCover, DigestOf, IsManaged;
    if IsCover(p) {
      var slug, digest, extension := CoverIsManaged(p);
    }
    forall slug: string, digest: string, extension: string | IsManaged(p, slug, digest, extension)
      ensures IsCover(p) && DigestOf(p) == digest
    {
      ManagedIsCover(p, slug, digest, extension);
    }
  }

  // --- Stages --------------------------------------------------------------------------

  datatype Stage = Stage(name: string, token: string, target: Path, replaced: Option<Path>, created: bool)

  predicate ValidStage(st: Stage) {
    Trim(st.token) != "" && IsCover(st.target) && (st.replaced.Some? ==> IsCover(st.replaced.value) && st.replaced.value != st.target)
  }

  datatype Load = Missing | Invalid | Loaded(stage: Stage)

  function LoadStage(disk: Disk, name: string): Load {
    match Lookup(disk, ManifestPath(name))
    case None => Missing
    case Some(CoverManifest(token, target, replaced, created)) =>
      var st := Stage(name, token, target, replaced, created);
      if ValidStage(st) then Loaded(st) else Invalid
    case Some(_) => Invalid
  }

  /** A manifest loads exactly if it is where it should be, its token is not blank, and the target and the replaced file, if any, are different cover paths. */
  lemma LoadsExactly(disk: Disk, name: string, st: Stage)
    ensures LoadStage(disk, name) == Loaded(st) <==>
      && st.name == name && Lookup(disk, [".atri-cover-uploads", name, "install.json"]) == Some(CoverManifest(st.token, st.target, st.replaced, st.created))
      && !AllBlank(st.token) && IsCover(st.target) && (st.replaced.Some? ==> IsCover(st.replaced.value) && st.replaced.value != st.target)
  {
    hide Trim, IsCover, AllBlank;
    TrimBlank(st.token);
    assert ManifestPath(name) == [".atri-cover-uploads", name, "install.json"];
  }

  predicate Committed(db: Database, st: Stage) {
    st.token in db.receipts
  }

  /** The steps of a phase and whether it ends without an error. */
  datatype Plan = Plan(ops: seq<Op>, ok: bool)

  function Deleting(disk: Disk, p: Path): Plan {
    if p !in disk then Plan([], true) else if Verified(disk, p) then Plan([Delete(p)], true) else Plan([], false)
  }

  /** What becomes of the new file: it stays if some game shows it, and goes if this stage brought it. */
  function TargetPlan(w: World, st: Stage): Plan {
    if Referenced(w.db, st.target) then Plan([], Verified(w.disk, st.target))
    else if st.created then Deleting(w.disk, st.target)
    else Plan([], true)
  }

  function ReplacedPlan(w: World, st: Stage): Plan {
    if st.replaced.Some? && !Referenced(w.db, st.replaced.value) then Deleting(w.disk, st.replaced.value) else Plan([], true)
  }

  function FinalizePlan(w: World, st: Stage): Plan {
    if !Committed(w.db, st) || w.db.receipts[st.token].target != st.target || w.db.receipts[st.token].replaced != st.replaced then Plan([], false)
    else
      var first := TargetPlan(w, st);
      if !first.ok then first
      else
        var second := ReplacedPlan(Run(first.ops, w), st);
        if !second.ok then Plan(first.ops + second.ops, false)
        else Plan(first.ops + second.ops + [RemoveAll(StageRoot(st.name)), DropReceipt(st.token)], true)
  }

  function RollbackPlan(w: World, st: Stage): Plan {
    var first := if st.created then Deleting(w.disk, st.target) else Plan([], true);
    if first.ok then Plan(first.ops + [RemoveAll(StageRoot(st.name))], true) else first
  }

  /** A directory without a manifest is removed, a committed stage finished, any other undone; one with a bad manifest stays. */
  function RecoverStagePlan(w: World, name: string): Plan {
    match LoadStage(w.disk, name)
    case Missing => Plan([RemoveAll(StageRoot(name))], true)
    case Invalid => Plan([], false)
    case Loaded(st) => if Committed(w.db, st) then FinalizePlan(w, st) else RollbackPlan(w, st)
  }

  function RecoverOps(w: World, names: seq<string>): seq<Op>
    decreases |names|
  {
    if names == [] then []
    else
      var ops := RecoverStagePlan(w, names[0]).ops;
      ops + RecoverOps(Run(ops, w), names[1..])
  }

  predicate RecoverSound(w: World, names: seq<string>)
    decreases |names|
  {
    names == [] || (RecoverStagePlan(w, names[0]).ok && RecoverSound(Run(RecoverStagePlan(w, names[0]).ops, w), names[1..]))
  }

  // --- Paths ---------------------------------------------------------------------------

  lemma CoversApart(p: Path, stage: string)
    requires IsCover(p)
    ensures !InUploads(p) && !(StageRoot(stage) <= p)
    ensures p != ManifestPath(stage)
  {
    hide CoverName, SafeBundleName;
    assert |"covers"| == 6 && |UPLOADS| == 19;
    StagesApart(stage, stage, p);
  }

  lemma StageInUploads(stage: string, p: Path)
    requires StageRoot(stage) <= p
    ensures InUploads(p) && |p| > 1 && p[1] == stage
  {
    assert p[0] == StageRoot(stage)[0] && p[1] == StageRoot(stage)[1];
  }

  lemma StagesApart(a: string, b: string, p: Path)
    ensures StageRoot(a) <= p && StageRoot(b) <= p ==> a == b
    ensures StageRoot(a) <= p ==> InUploads(p)
    ensures StageRoot(a) <= ManifestPath(a)
  {
    if StageRoot(a) <= p {
      StageInUploads(a, p);
    }
    if StageRoot(b) <= p {
      StageInUploads(b, p);
    }
  }

  lemma StageRemoved(w: World, name: string, p: Path)
    ensures var v := Apply(RemoveAll(StageRoot(name)), w);
            v.db == w.db && Lookup(v.disk, p) == if StageRoot(name) <= p then None else Lookup(w.disk, p)
  {
  }

  // --- What a stage gives up -----------------------------------------------------------

  /** Files at cover paths have the content their names say. */
  ghost predicate Honest(disk: Disk) {
    forall p | p in disk && IsCover(p) :: Verified(disk, p)
  }

  /** Files are honest and no two stages share a token. */
  ghost predicate Orderly(w: World) {
    Honest(w.disk) && forall n: string, m: string | n != m :: TokensDiffer(w.disk, n, m)
  }

  predicate TokensDiffer(disk: Disk, n: string, m: string) {
    LoadStage(disk, n).Loaded? && LoadStage(disk, m).Loaded? ==> LoadStage(disk, n).stage.token != LoadStage(disk, m).stage.token
  }

  /** The files resolving a stage takes away: those a committed stage leaves unshown, or the one an uncommitted stage brought. */
  function GivesOf(db: Database, st: Stage): set<Path> {
    if Committed(db, st) then
      (if st.created && !Referenced(db, st.target) then {st.target} else {})
      + (if st.replaced.Some? && !Referenced(db, st.replaced.value) then {st.replaced.value} else {})
    else if st.created then {st.target} else {}
  }

  function Gives(w: World, name: string): set<Path> {
    if LoadStage(w.disk, name).Loaded? then GivesOf(w.db, LoadStage(w.disk, name).stage) else {}
  }

  ghost predicate Given(w: World, p: Path) {
    exists n: string :: p in Gives(w, n)
  }

  /** The receipt of a committed stage says what the stage says, and a target that some game shows is there. */
  predicate Matches(w: World, st: Stage)
    requires Committed(w.db, st)
  {
    && w.db.receipts[st.token].target == st.target && w.db.receipts[st.token].replaced == st.replaced
    && (Referenced(w.db, st.target) ==> st.target in w.disk)
  }

  /** Resolving the directory raises no error. */
  predicate Good(w: World, name: string) {
    match LoadStage(w.disk, name)
    case Missing => true
    case Invalid => false
    case Loaded(st) => Committed(w.db, st) ==> Matches(w, st)
  }

  // --- The steps of resolving one directory --------------------------------------------

  /** The files that are deleted, in order. */
  function FilesOf(w: World, name: string): seq<Path> {
    match LoadStage(w.disk, name)
    case Missing => []
    case Invalid => []
    case Loaded(st) =>
      if !Good(w, name) then []
      else if Committed(w.db, st) then
        (if st.created && !Referenced(w.db, st.target) && st.target in w.disk then [st.target] else [])
        + (if st.replaced.Some? && !Referenced(w.db, st.replaced.value) && st.replaced.value in w.disk then [st.replaced.value] else [])
      else if st.created && st.target in w.disk then [st.target] else []
  }

  function Deletes(files: seq<Path>): (ops: seq<Op>)
    ensures |ops| == |files|
  {
    if files == [] then [] else [Delete(files[0])] + Deletes(files[1..])
  }

  function TailOf(w: World, name: string): seq<Op> {
    [RemoveAll(StageRoot(name))]
    + if LoadStage(w.disk, name).Loaded? && Committed(w.db, LoadStage(w.disk, name).stage) then [DropReceipt(LoadStage(w.disk, name).stage.token)] else []
  }

  /** A committed stage on honest files: the target is checked or deleted, then the replaced file goes. */
  lemma FinalizeShape(w: World, st: Stage)
    requires Honest(w.disk) && ValidStage(st) && Committed(w.db, st) && Matches(w, st)
    ensures var target := st.created && !Referenced(w.db, st.target) && st.target in w.disk;
            var replaced := st.replaced.Some? && !Referenced(w.db, st.replaced.value) && st.replaced.value in w.disk;
            FinalizePlan(w, st) == Plan(
              (if target then [Delete(st.target)] else []) + (if replaced then [Delete(st.replaced.value)] else [])
              + [RemoveAll(StageRoot(st.name)), DropReceipt(st.token)], true)
  {
    hide IsCover, Referenced, StageRoot, Trim;
    var first := TargetPlan(w, st);
    RunUpTo3(first.ops, w);
  }

  lemma FinalizeRefused(w: World, st: Stage)
    requires Committed(w.db, st) && !Matches(w, st)
    ensures FinalizePlan(w, st) == Plan([], false)
  {
    hide Referenced, ReplacedPlan, Run;
    if w.db.receipts[st.token].target == st.target && w.db.receipts[st.token].replaced == st.replaced {
      assert Lookup(w.disk, st.target) == None;
      assert TargetPlan(w, st) == Plan([], false);
    }
  }

  lemma RollbackShape(w: World, st: Stage)
    requires Honest(w.disk) && ValidStage(st)
    ensures RollbackPlan(w, st) == Plan((if st.created && st.target in w.disk then [Delete(st.target)] else []) + [RemoveAll(StageRoot(st.name))], true)
  {
    hide IsCover, StageRoot, Trim;
  }

  lemma LoadedIsValid(disk: Disk, name: string)
    ensures LoadStage(disk, name).Loaded? ==> LoadStage(disk, name).stage.name == name && ValidStage(LoadStage(disk, name).stage)
  {
    hide ValidStage, ManifestPath;
  }

  lemma DeletesUpTo2(files: seq<Path>)
    requires |files| <= 2
    ensures Deletes(files) == if |files| == 0 then [] else if |files| == 1 then [Delete(files[0])] else [Delete(files[0]), Delete(files[1])]
  {
    if |files| > 0 {
      assert |files| == 1 ==> files[1..] == [];
      assert |files| == 2 ==> files[1..][1..] == [];
    }
  }

  /** Whatever the directory holds: the files go, and if there is no error the stage and its receipt after them. */
  lemma DirectoryPlan(w: World, name: string)
    requires Honest(w.disk)
    ensures |FilesOf(w, name)| <= 2
    ensures RecoverStagePlan(w, name) == Plan(Deletes(FilesOf(w, name)) + (if Good(w, name) then TailOf(w, name) else []), Good(w, name))
  {
    hide IsCover, Referenced, StageRoot, ManifestPath, ValidStage, FinalizePlan, RollbackPlan, Honest, Matches;
    LoadedIsValid(w.disk, name);
    DeletesUpTo2(FilesOf(w, name));
    var load := LoadStage(w.disk, name);
    if load.Loaded? {
      if !Committed(w.db, load.stage) {
        RollbackShape(w, load.stage);
      } else if Good(w, name) {
        FinalizeShape(w, load.stage);
      } else {
        FinalizeRefused(w, load.stage);
      }
    }
  }

  lemma FilesAreGiven(w: World, name: string)
    ensures forall f | f in FilesOf(w, name) :: f in Gives(w, name)
    ensures Good(w, name) ==> forall f | f in Gives(w, name) && f in w.disk :: f in FilesOf(w, name)
  {
    hide IsCover, Referenced, ManifestPath, Matches, ValidStage;
  }

  lemma GivenIsCover(w: World, name: string, p: Path)
    requires p in Gives(w, name)
    ensures IsCover(p)
  {
    hide IsCover, Referenced, ManifestPath;
    LoadedIsValid(w.disk, name);
  }
}
