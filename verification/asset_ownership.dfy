/** Which files belong to a game, and which of them its deletion may take. */
module AssetOwnership {
  import opened Wrappers
  import opened Storage
  import opened Text

  // --- Assets --------------------------------------------------------------------------

  datatype ManagedAsset = Managed(path: Path, directory: bool)

  /** The asset a cover or launch URL names, if it names one; the URL is given by the segments of its path. */
  function FromUrl(url: Path, cover: bool): Option<ManagedAsset> {
    if !Clean(url) then None
    else if cover then
      if |url| < 2 || url[0] != "covers" then None
      else if |url| >= 3 && SafeBundleName(url[1]) then Some(Managed([url[0], url[1]], true))
      else Some(Managed(url, false))
    else if |url| >= 3 && url[0] == "games" && SafeBundleName(url[1]) && url[2] == "play" then
      Some(Managed(["playables", url[1]], true))
    else if |url| < 2 || (url[0] != "demos" && url[0] != "playables") || !SafeBundleName(url[1]) then None
    else Some(Managed([url[0], url[1]], true))
  }

  /** The asset a row of the asset table describes, if it is well formed. */
  function FromRecord(path: Path, directory: bool): Option<ManagedAsset> {
    if !Clean(path) then None
    else if directory then
      if |path| == 2 && path[0] in ["demos", "playables", "covers"] && SafeBundleName(path[1]) then Some(Managed(path, true)) else None
    else if |path| >= 2 && path[0] == "covers" then Some(Managed(path, false))
    else None
  }

  predicate OwnedBySlug(item: ManagedAsset, slug: string, cover: bool) {
    SafeBundleName(slug) && |item.path| == 2
    && if cover then
         if item.directory then item.path[0] == "covers" && item.path[1] == slug
         else slug + "." <= item.path[1] && |item.path[1]| > |slug| + 1
       else (item.path[0] == "demos" || item.path[0] == "playables") && item.path[1] == slug
  }

  // --- The catalog ---------------------------------------------------------------------

  datatype Game = Game(id: string, slug: string, cover: Path, launch: Path)

  datatype Row = Row(game: string, path: Path, directory: bool)

  datatype Catalog = Catalog(games: seq<Game>, rows: seq<Row>)

  function OwnedAsset(url: Path, slug: string, cover: bool): Option<ManagedAsset> {
    var item := FromUrl(url, cover);
    if item.Some? && OwnedBySlug(item.value, slug, cover) then item else None
  }

  /** A row, unless there is one for the same game and path. */
  function AddRow(rows: seq<Row>, game: string, item: Option<ManagedAsset>): seq<Row> {
    if item.None? || (exists i | 0 <= i < |rows| :: rows[i].game == game && rows[i].path == item.value.path) then rows
    else rows + [Row(game, item.value.path, item.value.directory)]
  }

  /** Records what a game owns through its URLs. */
  function Track(rows: seq<Row>, game: Game): seq<Row> {
    AddRow(AddRow(rows, game.id, OwnedAsset(game.cover, game.slug, true)), game.id, OwnedAsset(game.launch, game.slug, false))
  }

  /** The rows that tracking writes. */
  predicate Trackable(row: Row) {
    FromRecord(row.path, row.directory) == Some(Managed(row.path, row.directory)) && |row.path| == 2
  }

  predicate AllTrackable(rows: seq<Row>) {
    forall i | 0 <= i < |rows| :: Trackable(rows[i])
  }

  lemma OwnedIsTrackable(url: Path, slug: string, cover: bool, game: string)
    ensures var item := OwnedAsset(url, slug, cover);
            item.Some? ==> Trackable(Row(game, item.value.path, item.value.directory))
  {
    assert SafeSegment("playables") && SafeSegment("covers") && SafeSegment("demos");
  }

  /** Creating, updating and importing games keep every row in a form that deletion can read. */
  lemma TrackKeepsRows(rows: seq<Row>, game: Game)
    requires AllTrackable(rows)
    ensures AllTrackable(Track(rows, game))
  {
    OwnedIsTrackable(game.cover, game.slug, true, game.id);
    OwnedIsTrackable(game.launch, game.slug, false, game.id);
    AddKeepsRows(rows, game.id, OwnedAsset(game.cover, game.slug, true));
    AddKeepsRows(AddRow(rows, game.id, OwnedAsset(game.cover, game.slug, true)), game.id, OwnedAsset(game.launch, game.slug, false));
  }

  lemma AddKeepsRows(rows: seq<Row>, game: string, item: Option<ManagedAsset>)
    requires AllTrackable(rows) && (item.Some? ==> Trackable(Row(game, item.value.path, item.value.directory)))
    ensures AllTrackable(AddRow(rows, game, item))
  {
    hide Trackable;
  }

  // --- What a deletion takes -----------------------------------------------------------

  /** Some other game claims this path through a URL or a row. */
  predicate ClaimedByOther(cat: Catalog, id: string, p: Path) {
    || (exists i | 0 <= i < |cat.games| :: cat.games[i].id != id && UrlClaims(cat.games[i], p))
    || (exists i | 0 <= i < |cat.rows| :: cat.rows[i].game != id && RowClaims(cat.rows[i], p))
  }

  predicate UrlClaims(game: Game, p: Path) {
    (FromUrl(game.cover, true).Some? && FromUrl(game.cover, true).value.path == p)
    || (FromUrl(game.launch, false).Some? && FromUrl(game.launch, false).value.path == p)
  }

  predicate RowClaims(row: Row, p: Path) {
    FromRecord(row.path, row.directory).Some? && row.path == p
  }

  predicate Recorded(cat: Catalog, id: string, p: Path) {
    exists i | 0 <= i < |cat.rows| :: cat.rows[i].game == id && cat.rows[i].path == p
  }

  /** Some row of the game records this asset. */
  predicate RecordedAs(cat: Catalog, id: string, a: ManagedAsset) {
    exists i | 0 <= i < |cat.rows| :: cat.rows[i].game == id && FromRecord(cat.rows[i].path, cat.rows[i].directory) == Some(a)
  }

  predicate Readable(cat: Catalog, id: string) {
    forall i | 0 <= i < |cat.rows| :: cat.rows[i].game == id ==> FromRecord(cat.rows[i].path, cat.rows[i].directory).Some?
  }

  function Remove(assets: map<Path, ManagedAsset>, item: Option<ManagedAsset>): map<Path, ManagedAsset> {
    if item.Some? then assets - {item.value.path} else assets
  }

  /** The assets of a game by path, without those that another game claims as well; nothing if a row of the game cannot be read. */
  method AssetsToDelete(cat: Catalog, id: string) returns (r: Option<map<Path, ManagedAsset>>)
    ensures r.Some? <==> Readable(cat, id)
    ensures r.Some? ==> forall p: Path :: p in r.value <==> Recorded(cat, id, p) && !ClaimedByOther(cat, id, p)
    ensures r.Some? ==> forall p | p in r.value :: r.value[p].path == p && RecordedAs(cat, id, r.value[p])
  {
    hide FromRecord, FromUrl;
    var assets: map<Path, ManagedAsset> := map[];
    var i := 0;
    while i < |cat.rows|
      invariant 0 <= i <= |cat.rows|
      invariant forall k | 0 <= k < i :: cat.rows[k].game == id ==> FromRecord(cat.rows[k].path, cat.rows[k].directory).Some?
      invariant forall p: Path :: p in assets <==> exists k | 0 <= k < i :: cat.rows[k].game == id && cat.rows[k].path == p
      invariant forall p | p in assets :: assets[p].path == p && RecordedAs(cat, id, assets[p])
    {
      var row := cat.rows[i];
      if row.game == id {
        var item := FromRecord(row.path, row.directory);
        if item.None? {
          return None;
        }
        RecordPath(row.path, row.directory);
        assert RecordedAs(cat, id, item.value);
        assets := assets[row.path := item.value];
      }
      i := i + 1;
    }
    var urls := RemoveByUrls(cat, id, assets);
    var kept := RemoveByRows(cat, id, urls);
    r := Some(kept);
  }

  lemma RecordPath(path: Path, directory: bool)
    ensures FromRecord(path, directory).Some? ==> FromRecord(path, directory).value == Managed(path, directory)
  {
  }

  /** What the URLs of a game claim goes. */
  lemma RemoveClaims(assets: map<Path, ManagedAsset>, game: Game, p: Path)
    ensures var kept := Remove(Remove(assets, FromUrl(game.cover, true)), FromUrl(game.launch, false));
            (p in kept <==> p in assets && !UrlClaims(game, p)) && (p in kept ==> kept[p] == assets[p])
  {
    hide FromUrl;
  }

  predicate ClaimedByUrl(cat: Catalog, id: string, p: Path, n: nat)
    requires n <= |cat.games|
  {
    exists k | 0 <= k < n :: cat.games[k].id != id && UrlClaims(cat.games[k], p)
  }

  predicate ClaimedByRow(cat: Catalog, id: string, p: Path, n: nat)
    requires n <= |cat.rows|
  {
    exists k | 0 <= k < n :: cat.rows[k].game != id && RowClaims(cat.rows[k], p)
  }

  /** Drops every asset that a URL of another game claims. */
  method RemoveByUrls(cat: Catalog, id: string, assets: map<Path, ManagedAsset>) returns (kept: map<Path, ManagedAsset>)
    ensures forall p: Path :: p in kept <==> p in assets && !ClaimedByUrl(cat, id, p, |cat.games|)
    ensures forall p | p in kept :: kept[p] == assets[p]
  {
    hide FromUrl, UrlClaims, Remove;
    kept := assets;
    var i := 0;
    while i < |cat.games|
      invariant 0 <= i <= |cat.games|
      invariant forall p: Path :: p in kept <==> p in assets && !ClaimedByUrl(cat, id, p, i)
      invariant forall p | p in kept :: kept[p] == assets[p]
    {
      if cat.games[i].id != id {
        forall p: Path {
          RemoveClaims(kept, cat.games[i], p);
        }
        kept := Remove(Remove(kept, FromUrl(cat.games[i].cover, true)), FromUrl(cat.games[i].launch, false));
      }
      i := i + 1;
    }
  }

  /** Drops every asset that a row of another game claims. */
  method RemoveByRows(cat: Catalog, id: string, assets: map<Path, ManagedAsset>) returns (kept: map<Path, ManagedAsset>)
    ensures forall p: Path :: p in kept <==> p in assets && !ClaimedByRow(cat, id, p, |cat.rows|)
    ensures forall p | p in kept :: kept[p] == assets[p]
  {
    hide FromRecord;
    kept := assets;
    var i := 0;
    while i < |cat.rows|
      invariant 0 <= i <= |cat.rows|
      invariant forall p: Path :: p in kept <==> p in assets && !ClaimedByRow(cat, id, p, i)
      invariant forall p | p in kept :: kept[p] == assets[p]
    {
      if cat.rows[i].game != id {
        RecordPath(cat.rows[i].path, cat.rows[i].directory);
        kept := Remove(kept, FromRecord(cat.rows[i].path, cat.rows[i].directory));
      }
      i := i + 1;
    }
  }

  // --- Equal keys cover every overlap but one ------------------------------------------

  predicate Overlap(p: Path, q: Path) {
    p <= q || q <= p
  }

  /** A cover file in the cover directory whose name no game directory could have, and a cover file of another game below that name. */
  predicate FileBelowFile(a: ManagedAsset, b: ManagedAsset) {
    !a.directory && !b.directory && |a.path| == 2 && |b.path| > 2 && a.path <= b.path && !SafeBundleName(a.path[1])
  }

  lemma SamePath(p: Path, q: Path)
    requires Overlap(p, q) && |p| == |q|
    ensures p == q
  {
  }

  /** An asset from a row and one that a URL of another game names: they overlap only if they are the same, or a file lies below a file. */
  lemma UrlOverlap(row: Row, url: Path, cover: bool)
    requires Trackable(row) && FromUrl(url, cover).Some?
    ensures var a, b := Managed(row.path, row.directory), FromUrl(url, cover).value;
            Overlap(a.path, b.path) <==> a.path == b.path || FileBelowFile(a, b)
  {
    var a, b := Managed(row.path, row.directory), FromUrl(url, cover).value;
    if Overlap(a.path, b.path) && a.path != b.path {
      if |b.path| == 2 {
        SamePath(a.path, b.path);
      } else {
        assert a.path <= b.path && a.path[1] == b.path[1];
      }
    }
  }

  /** The assets another game has in the table or in its URLs. */
  ghost predicate OtherAsset(cat: Catalog, id: string, b: ManagedAsset) {
    || (exists i | 0 <= i < |cat.games| :: cat.games[i].id != id && (FromUrl(cat.games[i].cover, true) == Some(b) || FromUrl(cat.games[i].launch, false) == Some(b)))
    || (exists i | 0 <= i < |cat.rows| :: cat.rows[i].game != id && FromRecord(cat.rows[i].path, cat.rows[i].directory) == Some(b))
  }

  /** No asset a deletion takes equals, contains or lies inside an asset of another game, but for a file below a file. */
  lemma DeletionSparesOthers(cat: Catalog, id: string, a: ManagedAsset, b: ManagedAsset)
    requires AllTrackable(cat.rows) && OtherAsset(cat, id, b)
    requires RecordedAs(cat, id, a)
    requires !ClaimedByOther(cat, id, a.path)
    ensures Overlap(a.path, b.path) <==> FileBelowFile(a, b)
  {
    hide FromUrl, FromRecord, FileBelowFile, Trackable, SafeBundleName;
    var k :| 0 <= k < |cat.rows| && cat.rows[k].game == id && FromRecord(cat.rows[k].path, cat.rows[k].directory) == Some(a);
    RecordPath(cat.rows[k].path, cat.rows[k].directory);
    NotItself(a);
    Unclaimed(cat, id, a.path);
    if i :| 0 <= i < |cat.games| && cat.games[i].id != id && (FromUrl(cat.games[i].cover, true) == Some(b) || FromUrl(cat.games[i].launch, false) == Some(b)) {
      NamedIsClaimed(cat.games[i], b);
      if FromUrl(cat.games[i].cover, true) == Some(b) {
        UrlOverlap(cat.rows[k], cat.games[i].cover, true);
      } else {
        UrlOverlap(cat.rows[k], cat.games[i].launch, false);
      }
    } else {
      var i :| 0 <= i < |cat.rows| && cat.rows[i].game != id && FromRecord(cat.rows[i].path, cat.rows[i].directory) == Some(b);
      RecordPath(cat.rows[i].path, cat.rows[i].directory);
      assert RowClaims(cat.rows[i], b.path);
      RowOverlap(cat.rows[k], cat.rows[i]);
    }
  }

  lemma Unclaimed(cat: Catalog, id: string, p: Path)
    requires !ClaimedByOther(cat, id, p)
    ensures forall i | 0 <= i < |cat.games| :: cat.games[i].id != id ==> !UrlClaims(cat.games[i], p)
    ensures forall i | 0 <= i < |cat.rows| :: cat.rows[i].game != id ==> !RowClaims(cat.rows[i], p)
  {
    hide UrlClaims, RowClaims;
  }

  lemma NamedIsClaimed(game: Game, b: ManagedAsset)
    requires FromUrl(game.cover, true) == Some(b) || FromUrl(game.launch, false) == Some(b)
    ensures UrlClaims(game, b.path)
  {
    hide FromUrl;
  }

  lemma NotItself(a: ManagedAsset)
    ensures forall b: ManagedAsset :: FileBelowFile(a, b) ==> a.path != b.path
  {
  }

  lemma RowOverlap(r: Row, s: Row)
    requires Trackable(r) && Trackable(s)
    ensures var a, b := Managed(r.path, r.directory), Managed(s.path, s.directory);
            && (Overlap(r.path, s.path) <==> r.path == s.path) && !FileBelowFile(a, b)
  {
    if Overlap(r.path, s.path) {
      SamePath(r.path, s.path);
    }
  }

  const SPACED: string := "a.x y"

  lemma SpacedName()
    ensures !SafeBundleName(SPACED) && SafeSegment(SPACED) && |SPACED| == 5 && "a" + "." <= SPACED
  {
    assert SPACED[3] == ' ' && !PlainCharacter(' ');
    assert ' ' in SPACED;
    assert "a" + "." == SPACED[..2];
  }

  lemma SpacedUrls()
    ensures FromUrl(["covers", SPACED], true) == Some(Managed(["covers", SPACED], false))
    ensures FromUrl(["covers", SPACED, "z"], true) == Some(Managed(["covers", SPACED, "z"], false))
    ensures FromUrl(["x"], false) == None
    ensures OwnedAsset(["covers", SPACED], "a", true) == Some(Managed(["covers", SPACED], false))
    ensures OwnedAsset(["covers", SPACED, "z"], "b", true) == None
  {
    hide SafeBundleName, SPACED;
    SpacedName();
    assert SafeSegment("covers") && SafeSegment("z");
    ShortName();
  }

  lemma ShortName()
    ensures SafeBundleName("a")
  {
    assert forall c | c in "a" :: PlainCharacter(c);
  }

  /** The exception is real: two games a catalog can hold, one of which has a file where the other has a directory. */
  lemma FileBelowFileHappens()
    ensures var one := Game("1", "a", ["covers", SPACED], ["x"]);
            var two := Game("2", "b", ["covers", SPACED, "z"], ["x"]);
            var cat := Catalog([one, two], Track(Track([], one), two));
            var a, b := Managed(["covers", SPACED], false), Managed(["covers", SPACED, "z"], false);
            && AllTrackable(cat.rows) && cat.rows == [Row("1", ["covers", SPACED], false)]
            && OtherAsset(cat, "1", b) && !ClaimedByOther(cat, "1", a.path) && Overlap(a.path, b.path)
  {
    hide FromUrl, OwnedAsset, SPACED, FromRecord;
    SpacedUrls();
    var one := Game("1", "a", ["covers", SPACED], ["x"]);
    var two := Game("2", "b", ["covers", SPACED, "z"], ["x"]);
    TrackKeepsRows([], one);
    TrackKeepsRows(Track([], one), two);
    OwnedLaunch("a");
    OwnedLaunch("b");
    var cat := Catalog([one, two], Track(Track([], one), two));
    assert cat.games[1] == two;
    assert "1" != "2";
  }

  lemma OwnedLaunch(slug: string)
    ensures OwnedAsset(["x"], slug, false) == None
  {
  }

  // --- The files that URLs are served from ---------------------------------------------

  /** The file or directory below the asset root that a URL is served from: the files of a game's player lie in its bundle, everything else at its own path. */
  function ServedFrom(url: Path): Path {
    if |url| >= 3 && url[0] == "games" && url[2] == "play" then ["playables", url[1]] + url[3..] else url
  }

  /** A cover URL into the cover directory, or a launch URL into one of the two bundle directories. */
  predicate OwnKind(url: Path, cover: bool) {
    var s := ServedFrom(url);
    |s| >= 2 && if cover then url[0] == "covers" else s[0] == "demos" || s[0] == "playables"
  }

  /** The asset a URL names holds the file the URL is served from: the directory of its game, or the file itself for a cover in no such directory. */
  lemma AssetHoldsServed(url: Path, cover: bool)
    requires Clean(url)
    ensures FromUrl(url, cover).Some? <==> OwnKind(url, cover) && (cover || SafeBundleName(ServedFrom(url)[1]))
    ensures FromUrl(url, cover).Some? ==>
              var a, s := FromUrl(url, cover).value, ServedFrom(url);
              && (a.directory <==> !cover || (|url| >= 3 && SafeBundleName(url[1])))
              && a.path == (if a.directory then s[..2] else s) && a.path <= s
  {
    hide SafeBundleName, Clean;
    assert |"covers"| == 6 && |"demos"| == 5 && |"games"| == 5 && |"playables"| == 9 && "demos"[0] != "games"[0];
    var s := ServedFrom(url);
    if FromUrl(url, cover).Some? && FromUrl(url, cover).value.directory {
      assert s[..2] == FromUrl(url, cover).value.path;
    }
  }

  /** The deletion of a game takes the file another game's URL is served from only if that is a file below a file, or the URL is a cover URL outside the cover directory or a launch URL outside the bundle directories. */
  lemma DeletionSparesServed(cat: Catalog, id: string, a: ManagedAsset, i: nat, cover: bool)
    requires AllTrackable(cat.rows) && RecordedAs(cat, id, a) && !ClaimedByOther(cat, id, a.path)
    requires i < |cat.games| && cat.games[i].id != id
    requires var url := if cover then cat.games[i].cover else cat.games[i].launch; Clean(url) && a.path <= ServedFrom(url)
    ensures var url := if cover then cat.games[i].cover else cat.games[i].launch;
            !OwnKind(url, cover) || (cover && !a.directory && |url| > 2 && !SafeBundleName(url[1]))
  {
    hide FromUrl, SafeBundleName, Clean, FromRecord, FileBelowFile, ServedFrom;
    var url := if cover then cat.games[i].cover else cat.games[i].launch;
    var s := ServedFrom(url);
    var k :| 0 <= k < |cat.rows| && cat.rows[k].game == id && FromRecord(cat.rows[k].path, cat.rows[k].directory) == Some(a);
    RecordPath(cat.rows[k].path, cat.rows[k].directory);
    assert Trackable(cat.rows[k]);
    assert |a.path| == 2 && a.path == s[..2];
    RecordShape(cat.rows[k]);
    AssetHoldsServed(url, cover);
    Unclaimed(cat, id, a.path);
    if OwnKind(url, cover) {
      PlainUrl(url, cover);
      if FromUrl(url, cover).Some? {
        var b := FromUrl(url, cover).value;
        NamedPath(cat.games[i], cover);
        assert b.path != a.path;
        assert !b.directory;
        assert |url| > 2 && !SafeBundleName(url[1]);
      }
    }
  }

  lemma NamedPath(game: Game, cover: bool)
    ensures var url := if cover then game.cover else game.launch;
            FromUrl(url, cover).Some? ==> UrlClaims(game, FromUrl(url, cover).value.path)
  {
    hide FromUrl;
  }

  lemma PlainUrl(url: Path, cover: bool)
    requires OwnKind(url, cover) && cover
    ensures ServedFrom(url) == url
  {
    assert |"covers"| == 6 && |"games"| == 5;
  }

  /** A row names a directory with a plain name, or a file in the cover directory. */
  lemma RecordShape(row: Row)
    requires Trackable(row)
    ensures |row.path| == 2 && if row.directory then SafeBundleName(row.path[1]) && row.path[0] in ["demos", "playables", "covers"] else row.path[0] == "covers"
  {
    hide SafeBundleName, Clean;
  }

  /** The exception of the other kind is real: the cover URL of one game names a file in the bundle of another, whose deletion takes the bundle. */
  lemma CoverInBundleHappens()
    ensures var one := Game("1", "a", ["x"], ["games", "a", "play"]);
            var two := Game("2", "b", ["playables", "a", "z"], ["x"]);
            var cat := Catalog([one, two], Track(Track([], one), two));
            && AllTrackable(cat.rows) && Clean(two.cover) && RecordedAs(cat, "1", Managed(["playables", "a"], true))
            && !ClaimedByOther(cat, "1", ["playables", "a"]) && ["playables", "a"] <= ServedFrom(two.cover)
  {
    hide FromUrl, OwnedAsset, FromRecord, SafeBundleName, Clean;
    var one := Game("1", "a", ["x"], ["games", "a", "play"]);
    var two := Game("2", "b", ["playables", "a", "z"], ["x"]);
    BundleUrls();
    OwnedLaunch("b");
    var rows := Track(Track([], one), two);
    assert rows == [Row("1", ["playables", "a"], true)];
    TrackKeepsRows([], one);
    TrackKeepsRows(Track([], one), two);
    var cat := Catalog([one, two], rows);
    assert Trackable(cat.rows[0]);
    assert cat.rows[0].game == "1" && "1" != "2" && cat.games[1] == two;
    PlayablesServed();
  }

  lemma PlayablesServed()
    ensures ["playables", "a"] <= ServedFrom(["playables", "a", "z"])
  {
    assert |"playables"| != |"games"|;
  }

  lemma BundleUrls()
    ensures FromUrl(["playables", "a", "z"], true) == None && FromUrl(["x"], false) == None && FromUrl(["x"], true) == None
    ensures Clean(["playables", "a", "z"])
    ensures OwnedAsset(["x"], "a", true) == None && OwnedAsset(["playables", "a", "z"], "b", true) == None
    ensures OwnedAsset(["games", "a", "play"], "a", false) == Some(Managed(["playables", "a"], true))
  {
    hide SafeBundleName;
    ShortName();
    assert |"playables"| != |"covers"|;
    assert SafeSegment("playables") && SafeSegment("z") && SafeSegment("games") && SafeSegment("play") && SafeSegment("a");
  }

  // --- What is put on record -----------------------------------------------------------

  lemma RecordIsNamed(p: Path, directory: bool) returns (url: Path, cover: bool)
    requires FromRecord(p, directory).Some? && (directory || |p| == 2 || !SafeBundleName(p[1]))
    ensures FromUrl(url, cover) == Some(Managed(p, directory))
  {
    hide SafeBundleName;
    assert |"covers"| == 6 && |"demos"| == 5 && |"games"| == 5 && |"playables"| == 9 && "demos"[0] != "games"[0];
    cover := p[0] == "covers";
    url := if directory && cover then p + ["z"] else p;
    assert Clean(url);
    assert directory ==> p == [p[0], p[1]];
  }

  /** The records that can be read are what URLs can name, and the files in a cover directory besides. */
  lemma RecordsExactly(p: Path, directory: bool)
    ensures FromRecord(p, directory).Some? ==> FromRecord(p, directory) == Some(Managed(p, directory))
    ensures FromRecord(p, directory).Some? <==>
      || (exists url: Path, cover: bool :: FromUrl(url, cover) == Some(Managed(p, directory)))
      || (!directory && Clean(p) && |p| >= 3 && p[0] == "covers" && SafeBundleName(p[1]))
  {
    hide SafeBundleName;
    if FromRecord(p, directory).Some? && (directory || |p| == 2 || !SafeBundleName(p[1])) {
      var url, cover := RecordIsNamed(p, directory);
    }
  }

  /** What a URL puts on record for a slug: the directory of that name which the URL is served from, or a cover file whose name begins with it and a dot. */
  predicate Owns(url: Path, slug: string, cover: bool, a: ManagedAsset) {
    var s := ServedFrom(url);
    && Clean(url) && SafeBundleName(slug) && |s| >= 2 && a.path == s[..2]
    && if a.directory then s[1] == slug && (if cover then |url| >= 3 && url[0] == "covers" else s[0] in {"demos", "playables"})
       else cover && |url| == 2 && url[0] == "covers" && slug + "." <= url[1] && |url[1]| > |slug| + 1
  }

  lemma OwnedExactly(url: Path, slug: string, cover: bool, a: ManagedAsset)
    ensures OwnedAsset(url, slug, cover) == Some(a) <==> Owns(url, slug, cover, a)
  {
    hide SafeBundleName, Clean;
    assert |"covers"| == 6 && |"demos"| == 5 && |"games"| == 5 && |"playables"| == 9 && "demos"[0] != "games"[0];
    var s := ServedFrom(url);
    assert |s| >= 2 ==> s[..2] == [s[0], s[1]];
    assert |url| == 2 ==> url[..2] == url;
  }

  /** What is put on record for a game is exactly what its two URLs own; earlier rows stay. */
  lemma TrackExactly(rows: seq<Row>, game: Game, g: string, p: Path)
    ensures rows <= Track(rows, game)
    ensures OnRecord(Track(rows, game), g, p) <==>
      OnRecord(rows, g, p)
      || (g == game.id && exists a: ManagedAsset :: a.path == p && (Owns(game.cover, game.slug, true, a) || Owns(game.launch, game.slug, false, a)))
  {
    hide OwnedAsset, Owns, Track;
    var cover, launch := OwnedAsset(game.cover, game.slug, true), OwnedAsset(game.launch, game.slug, false);
    TrackSteps(rows, game);
    AddsRow(rows, game.id, cover, g, p);
    AddsRow(AddRow(rows, game.id, cover), game.id, launch, g, p);
    forall a: ManagedAsset
      ensures Owns(game.cover, game.slug, true, a) <==> cover == Some(a)
      ensures Owns(game.launch, game.slug, false, a) <==> launch == Some(a)
    {
      OwnedExactly(game.cover, game.slug, true, a);
      OwnedExactly(game.launch, game.slug, false, a);
    }
  }

  /** No game has a path on record twice. */
  predicate NoneTwice(rows: seq<Row>) {
    forall i, k | 0 <= i < k < |rows| :: !(rows[i].game == rows[k].game && rows[i].path == rows[k].path)
  }

  /** Writing rows never puts a path on record twice. */
  lemma TrackKeepsNoneTwice(rows: seq<Row>, game: Game)
    requires NoneTwice(rows)
    ensures NoneTwice(Track(rows, game))
  {
    hide OwnedAsset, NoneTwice, Track;
    var cover, launch := OwnedAsset(game.cover, game.slug, true), OwnedAsset(game.launch, game.slug, false);
    TrackSteps(rows, game);
    AddKeepsNoneTwice(rows, game.id, cover);
    AddKeepsNoneTwice(AddRow(rows, game.id, cover), game.id, launch);
  }

  lemma AddKeepsNoneTwice(rows: seq<Row>, game: string, item: Option<ManagedAsset>)
    requires NoneTwice(rows)
    ensures NoneTwice(AddRow(rows, game, item))
  {
  }

  lemma TrackSteps(rows: seq<Row>, game: Game)
    ensures Track(rows, game) == AddRow(AddRow(rows, game.id, OwnedAsset(game.cover, game.slug, true)), game.id, OwnedAsset(game.launch, game.slug, false))
  {
  }

  predicate OnRecord(rows: seq<Row>, game: string, p: Path) {
    exists i | 0 <= i < |rows| :: rows[i].game == game && rows[i].path == p
  }

  lemma AddsRow(rows: seq<Row>, game: string, item: Option<ManagedAsset>, g: string, p: Path)
    ensures rows <= AddRow(rows, game, item)
    ensures OnRecord(AddRow(rows, game, item), g, p) <==> OnRecord(rows, g, p) || (item.Some? && g == game && p == item.value.path)
  {
    var after := AddRow(rows, game, item);
    if after != rows {
      assert after[|rows|] == Row(game, item.value.path, item.value.directory);
    }
    if i :| 0 <= i < |rows| && rows[i].game == g && rows[i].path == p {
      assert after[i] == rows[i];
    }
  }

  /** The cover directory and the bundle that an import installs are put on record with the URLs an import writes. */
  lemma ImportsAreRecorded(rows: seq<Row>, game: Game, file: string, rest: Path)
    requires SafeBundleName(game.slug) && Clean(["covers", game.slug, file]) && Clean(["games", game.slug, "play"] + rest)
    requires game.cover == ["covers", game.slug, file] && game.launch == ["games", game.slug, "play"] + rest
    ensures OnRecord(Track(rows, game), game.id, ["covers", game.slug]) && OnRecord(Track(rows, game), game.id, ["playables", game.slug])
  {
    hide SafeBundleName, Clean, OnRecord, Track;
    var cover, bundle := Managed(["covers", game.slug], true), Managed(["playables", game.slug], true);
    assert Owns(game.cover, game.slug, true, cover);
    assert Owns(game.launch, game.slug, false, bundle);
    TrackExactly(rows, game, game.id, cover.path);
    TrackExactly(rows, game, game.id, bundle.path);
  }
}
