/**
 * The asset directory and the database as one machine that may lose power between any two steps.
 * A path is the list of its components below the asset root. Assets are kept as whole trees:
 * a directory stands for everything below its path.
 */
module Storage {
  import opened Wrappers

  type Path = seq<string>

  type Tree = string

  /** One swap of an import manifest: where the tree goes, where the old one is kept, where the new one waits. */
  datatype SwapItem = SwapItem(target: Path, backup: Path, incoming: Option<Path>)

  /** One asset of a deletion manifest. */
  datatype StagedItem = StagedItem(original: Path, staged: Path)

  datatype Entry =
    | Folder
    | Directory(tree: Tree)
    | File(content: Tree)
    | ImportManifest(token: string, slug: string, swaps: seq<SwapItem>)
    | DeletionManifest(game: string, items: seq<StagedItem>)
    | CoverManifest(token: string, target: Path, replaced: Option<Path>, created: bool)

  type Disk = map<Path, Entry>

  /** The receipt of an installed cover: the game, the new file and the one it replaces. */
  datatype Receipt = Receipt(game: string, target: Path, replaced: Option<Path>)

  /** A cover URL: the path it names, and whether it is that path and nothing more. */
  datatype CoverUrl = CoverUrl(path: Path, plain: bool)

  /** The rows the recovery code consults: games, the receipt token of each game's installed package, each game's cover URL, and cover receipts by token. */
  datatype Database = Database(games: set<string>, packages: map<string, string>, covers: map<string, CoverUrl>, receipts: map<string, Receipt>)

  datatype World = World(disk: Disk, db: Database)

  /** Every change is one of these, and each happens completely or not at all. */
  datatype Op =
    | Write(path: Path, entry: Entry)
    | Move(source: Path, destination: Path)
    | MoveInto(file: Path, directory: Path)
    | Delete(file: Path)
    | RemoveAll(root: Path)
    | CommitPackage(game: string, token: string, shown: CoverUrl)
    | CommitCover(token: string, receipt: Receipt)
    | DropReceipt(token: string)
    | DeleteRow(game: string)

  function Lookup(disk: Disk, p: Path): Option<Entry> {
    if p in disk then Some(disk[p]) else None
  }

  predicate IsFile(disk: Disk, p: Path) {
    p in disk && disk[p].File?
  }

  predicate IsDirectory(disk: Disk, p: Path) {
    p in disk && (disk[p].Directory? || disk[p].Folder?)
  }

  /** A directory that holds just this file. */
  function Housed(e: Entry): Entry {
    if e.File? then Directory(e.content) else e
  }

  lemma SameDisk(a: Disk, b: Disk)
    requires forall p: Path :: Lookup(a, p) == Lookup(b, p)
    ensures a == b
  {
    assert forall p: Path :: p in a <==> Lookup(a, p).Some?;
    assert forall p: Path :: p in b <==> Lookup(b, p).Some?;
    assert a.Keys == b.Keys;
    forall p | p in a
      ensures a[p] == b[p]
    {
      assert Lookup(a, p) == Lookup(b, p);
    }
  }

  predicate Under(p: Path, root: Path) {
    root <= p
  }

  function Without(disk: Disk, root: Path): Disk {
    map p | p in disk && !Under(p, root) :: disk[p]
  }

  function Apply(op: Op, w: World): World {
    match op
    case Write(path, entry) => w.(disk := w.disk[path := entry])
    case Move(source, destination) =>
      if source in w.disk then w.(disk := (w.disk - {source})[destination := w.disk[source]]) else w
    case MoveInto(file, directory) =>
      if IsFile(w.disk, file) then w.(disk := (w.disk - {file})[directory := Housed(w.disk[file])]) else w
    case Delete(file) => w.(disk := w.disk - {file})
    case RemoveAll(root) => w.(disk := Without(w.disk, root))
    case CommitPackage(game, token, shown) =>
      w.(db := w.db.(games := w.db.games + {game}, packages := w.db.packages[game := token], covers := w.db.covers[game := shown]))
    case CommitCover(token, receipt) =>
      w.(db := w.db.(games := w.db.games + {receipt.game}, covers := w.db.covers[receipt.game := CoverUrl(receipt.target, true)],
                     receipts := w.db.receipts[token := receipt]))
    case DropReceipt(token) => w.(db := w.db.(receipts := w.db.receipts - {token}))
    case DeleteRow(game) =>
      w.(db := Database(w.db.games - {game}, w.db.packages - {game}, w.db.covers - {game},
                        map t | t in w.db.receipts && w.db.receipts[t].game != game :: w.db.receipts[t]))
  }

  function Run(ops: seq<Op>, w: World): World {
    if ops == [] then w else Run(ops[1..], Apply(ops[0], w))
  }

  lemma {:induction false} RunConcat(a: seq<Op>, b: seq<Op>, w: World)
    ensures Run(a + b, w) == Run(b, Run(a, w))
  {
    if a == [] {
      assert a + b == b;
    } else {
      assert (a + b)[1..] == a[1..] + b;
      RunConcat(a[1..], b, Apply(a[0], w));
    }
  }

  /** A prefix of two lists run after each other. */
  lemma RunSplit(a: seq<Op>, b: seq<Op>, w: World, k: nat)
    requires k <= |a + b|
    ensures Run((a + b)[..k], w) == if k <= |a| then Run(a[..k], w) else Run(b[..k - |a|], Run(a, w))
    ensures k >= |a| ==> Run((a + b)[..k], w) == Run(b[..k - |a|], Run(a, w))
  {
    if k < |a| {
      assert (a + b)[..k] == a[..k];
    } else {
      assert (a + b)[..k] == a + b[..k - |a|];
      assert k == |a| ==> a[..k] == a && b[..0] == [] && (a + b)[..k] == a;
      RunConcat(a, b[..k - |a|], w);
    }
  }

  lemma RunNone(w: World)
    ensures Run([], w) == w
  {
  }

  lemma RunOne(op: Op, w: World)
    ensures Run([op], w) == Apply(op, w)
  {
    RunUpTo3([op], w);
  }

  lemma RunUpTo3(ops: seq<Op>, w: World)
    requires |ops| <= 3
    ensures Run(ops, w) ==
      if |ops| == 0 then w else if |ops| == 1 then Apply(ops[0], w)
      else if |ops| == 2 then Apply(ops[1], Apply(ops[0], w))
      else Apply(ops[2], Apply(ops[1], Apply(ops[0], w)))
  {
    if |ops| == 1 {
      assert ops[1..] == [];
    } else if |ops| == 2 {
      assert ops[1..][1..] == [];
    } else if |ops| == 3 {
      assert ops[1..][1..][1..] == [];
    }
  }

  /** How many of n steps are taken before the power fails; a negative fuse never burns out. */
  function Taken(fuse: int, n: nat): nat {
    if 0 <= fuse < n then fuse else n
  }

  function Burnt(fuse: int, n: nat): int {
    if fuse < 0 then fuse else fuse - Taken(fuse, n)
  }

  class Machine {
    var world: World
    var fuse: int

    constructor (world: World, fuse: int)
      ensures this.world == world && this.fuse == fuse
    {
      this.world := world;
      this.fuse := fuse;
    }

    /** Takes one step, unless the power is off. */
    method Do(op: Op) returns (ok: bool)
      modifies this
      ensures ok == (old(fuse) != 0)
      ensures world == if ok then Apply(op, old(world)) else old(world)
      ensures fuse == Burnt(old(fuse), 1)
    {
      ok := fuse != 0;
      if ok {
        world := Apply(op, world);
        if fuse > 0 {
          fuse := fuse - 1;
        }
      }
    }

    /** The power comes back: nothing on disk or in the database has changed. */
    method Restart(fuse: int)
      modifies this
      ensures world == old(world) && this.fuse == fuse
    {
      this.fuse := fuse;
    }
  }

  /** The state after the first steps of a list, as far as the fuse allows. */
  function Executed(ops: seq<Op>, w: World, fuse: int): World {
    Run(ops[..Taken(fuse, |ops|)], w)
  }

  /** Executing one list after another is executing their concatenation. */
  lemma ExecutedConcat(a: seq<Op>, b: seq<Op>, w: World, fuse: int)
    ensures Executed(b, Executed(a, w, fuse), Burnt(fuse, |a|)) == Executed(a + b, w, fuse)
    ensures Burnt(Burnt(fuse, |a|), |b|) == Burnt(fuse, |a + b|)
  {
    if 0 <= fuse < |a| {
      assert (a + b)[..fuse] == a[..fuse];
      assert b[..0] == [];
    } else {
      var n := Taken(Burnt(fuse, |a|), |b|);
      assert (a + b)[..|a| + n] == a + b[..n] && a[..|a|] == a;
      RunConcat(a, b[..n], w);
    }
  }

  /** All steps of the list are taken. */
  predicate Done(ops: seq<Op>, fuse: int) {
    Taken(fuse, |ops|) == |ops|
  }

  /** A list of steps was taken as far as the fuse allowed. */
  predicate Ran(ops: seq<Op>, w: World, fuse: int, after: World, left: int, ok: bool) {
    after == Executed(ops, w, fuse) && left == Burnt(fuse, |ops|) && ok == Done(ops, fuse)
  }

  lemma RanAll(a: seq<Op>, w: World, fuse: int, v: World, left: int)
    requires Ran(a, w, fuse, v, left, true)
    ensures v == Run(a, w)
    ensures left == if fuse < 0 then fuse else fuse - |a|
    ensures fuse < 0 || fuse >= |a|
  {
    assert a[..|a|] == a;
  }

  /** A second list that depends on what the first one left: without power it no longer matters what the list says. */
  lemma RanThen(a: seq<Op>, b: seq<Op>, late: seq<Op>, w: World, fuse: int, v: World, mid: int, ok: bool, after: World, left: int, ok': bool)
    requires Ran(a, w, fuse, v, mid, ok) && Ran(late, v, mid, after, left, ok')
    requires ok ==> late == b
    ensures Ran(a + b, w, fuse, after, left, ok && ok')
  {
    hide Run;
    ExecutedConcat(a, b, w, fuse);
    if !ok {
      assert late[..0] == b[..0] == [];
      assert Executed(late, v, 0) == Executed(b, v, 0);
    }
  }

  /** What a run of steps says about where it ended. */
  lemma RanTo(ops: seq<Op>, w: World, fuse: int, v: World, left: int, ok: bool)
    requires Ran(ops, w, fuse, v, left, ok)
    ensures v == Executed(ops, w, fuse) && left == Burnt(fuse, |ops|) && ok == Done(ops, fuse)
    ensures ok == (fuse < 0 || fuse >= |ops|)
    ensures left == if !ok then 0 else if fuse < 0 then fuse else fuse - |ops|
  {
  }

  lemma RanNoPower(ops: seq<Op>, w: World)
    requires ops != []
    ensures Ran(ops, w, 0, w, 0, false)
  {
    assert ops[..0] == [];
  }

  lemma RanOne(op: Op, w: World, fuse: int)
    ensures Ran([op], w, fuse, if fuse != 0 then Apply(op, w) else w, Burnt(fuse, 1), fuse != 0)
  {
    hide Apply;
    RunUpTo3([op][..Taken(fuse, 1)], w);
  }

  lemma RanNone(w: World, fuse: int)
    ensures Ran([], w, fuse, w, fuse, true)
  {
  }

  /** Takes a step if it is needed. */
  method DoIf(machine: Machine, needed: bool, op: Op) returns (ok: bool)
    modifies machine
    ensures Ran(if needed then [op] else [], old(machine.world), old(machine.fuse), machine.world, machine.fuse, ok)
  {
    hide *;
    ok := true;
    RanNone(machine.world, machine.fuse);
    if needed {
      RanOne(op, machine.world, machine.fuse);
      ok := machine.Do(op);
    }
  }

  /** Of a list of steps some are done and the rest is ahead; if one has failed, what was done is all there will be. */
  predicate SoFar(all: seq<Op>, done: seq<Op>, ahead: seq<Op>, w: World, fuse: int, v: World, left: int, ok: bool) {
    if ok then all == done + ahead && Ran(done, w, fuse, v, left, true) else Ran(all, w, fuse, v, left, false)
  }

  lemma SoFarStarts(all: seq<Op>, w: World, fuse: int)
    ensures SoFar(all, [], all, w, fuse, w, fuse, true)
  {
    hide Ran;
    RanNone(w, fuse);
    assert [] + all == all;
  }

  /** The next steps; after a failure it does not matter which steps are tried. */
  lemma SoFarAdvances(all: seq<Op>, done: seq<Op>, first: seq<Op>, others: seq<Op>, tried: seq<Op>,
                      w: World, fuse: int, v: World, left: int, ok: bool, after: World, left': int, ok': bool)
    requires SoFar(all, done, first + others, w, fuse, v, left, ok) && Ran(tried, v, left, after, left', ok')
    requires ok ==> tried == first
    ensures SoFar(all, done + first, others, w, fuse, after, left', ok && ok')
    ensures ok && ok' ==> after == Run(first, v)
  {
    hide Run, Executed, Burnt, Taken;
    if ok {
      assert done + (first + others) == done + first + others;
      RanThen(done, first, tried, w, fuse, v, left, true, after, left', ok');
      if ok' {
        RanAll(first, v, left, after, left');
      } else {
        RanNone(after, left');
        RanThen(done + first, others, [], w, fuse, after, left', false, after, left', true);
      }
    } else {
      RanThen(all, [], tried, w, fuse, v, left, false, after, left', ok');
      assert all + [] == all;
    }
  }

  lemma SoFarEnds(all: seq<Op>, done: seq<Op>, w: World, fuse: int, v: World, left: int, ok: bool)
    requires SoFar(all, done, [], w, fuse, v, left, ok)
    ensures Ran(all, w, fuse, v, left, ok)
  {
    hide Ran;
    assert done + [] == done;
  }

  lemma RanStops(ops: seq<Op>, more: seq<Op>, w: World, fuse: int, v: World, left: int)
    requires Ran(ops, w, fuse, v, left, false)
    ensures Ran(ops + more, w, fuse, v, left, false)
  {
    RanNone(v, left);
    RanThen(ops, more, [], w, fuse, v, left, false, v, left, true);
  }

  lemma AheadIsFree(all: seq<Op>, done: seq<Op>, a: seq<Op>, b: seq<Op>, w: World, fuse: int, v: World, left: int)
    requires SoFar(all, done, a, w, fuse, v, left, false)
    ensures SoFar(all, done, b, w, fuse, v, left, false)
  {
  }

  /** Takes the steps of a list in order and stops at the first that fails. */
  method DoAll(machine: Machine, ops: seq<Op>) returns (ok: bool)
    modifies machine
    ensures Ran(ops, old(machine.world), old(machine.fuse), machine.world, machine.fuse, ok)
  {
    hide *;
    ghost var w, fuse := machine.world, machine.fuse;
    var i := 0;
    RanNone(w, fuse);
    assert ops[..0] == [];
    while i < |ops|
      invariant 0 <= i <= |ops|
      invariant Ran(ops[..i], w, fuse, machine.world, machine.fuse, true)
    {
      ghost var v, left := machine.world, machine.fuse;
      ok := DoIf(machine, true, ops[i]);
      RanThen(ops[..i], [ops[i]], [ops[i]], w, fuse, v, left, true, machine.world, machine.fuse, ok);
      assert ops[..i] + [ops[i]] == ops[..i + 1];
      i := i + 1;
      if !ok {
        RanStops(ops[..i], ops[i..], w, fuse, machine.world, machine.fuse);
        assert ops[..i] + ops[i..] == ops;
        return;
      }
    }
    assert ops[..i] == ops;
    ok := true;
  }
}
