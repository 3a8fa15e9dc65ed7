/** The function patterns of a symbol, drawn before any data. */
module Template {
  import opened Bch
  import opened BitStream

  /** Bit 0 of a module is darkness, bit 1 marks a function module: 0 and 1 are data, 2 and 3 are patterns. */
  type Module = x: nat | x < 4

  function Pattern(dark: bool): Module {
    if dark then 3 else 2
  }

  function Abs(x: int): nat {
    if x < 0 then -x else x
  }

  function SizeOf(version: nat): nat {
    4 * version + 17
  }

  /** Alignment centre coordinates, versions 1 to 10. */
  function AlignmentCenters(version: nat): seq<nat>
    requires 1 <= version <= 10
  {
    [[], [6, 18], [6, 22], [6, 26], [6, 30], [6, 34], [6, 22, 38], [6, 24, 42], [6, 26, 46], [6, 28, 50]][version - 1]
  }

  // --- What each pattern looks like ---------------------------------------------------

  /** A finder pattern with its light border, relative to its top left module. */
  function FinderModule(dr: int, dc: int): Module {
    Pattern(0 <= dr <= 6 && 0 <= dc <= 6 && (dr == 0 || dr == 6 || dc == 0 || dc == 6 || (2 <= dr <= 4 && 2 <= dc <= 4)))
  }

  predicate InFinder(dr: int, dc: int) {
    -1 <= dr <= 7 && -1 <= dc <= 7
  }

  /** One of the three finder patterns. */
  predicate OnFinder(size: nat, r: nat, c: nat) {
    InFinder(r, c) || InFinder(r, c - (size - 7)) || InFinder(r - (size - 7), c)
  }

  function FinderAt(size: nat, r: nat, c: nat): Module {
    if InFinder(r, c) then FinderModule(r, c)
    else if InFinder(r, c - (size - 7)) then FinderModule(r, c - (size - 7))
    else FinderModule(r - (size - 7), c)
  }

  function AlignmentModule(dr: int, dc: int): Module {
    Pattern(Abs(dr) == 2 || Abs(dc) == 2 || (dr == 0 && dc == 0))
  }

  predicate OnTiming(size: nat, r: nat, c: nat) {
    (r == 6 && 8 <= c <= size - 9) || (c == 6 && 8 <= r <= size - 9)
  }

  predicate OnFormatStrip(size: nat, r: nat, c: nat) {
    (r == 8 && (c <= 8 || c >= size - 9)) || (c == 8 && (r <= 8 || r >= size - 9))
  }

  predicate Within(x: nat, center: nat) {
    Abs(x - center) <= 2
  }

  /** The last centre within two modules of x, or -1. */
  function Near(centers: seq<nat>, x: nat): (i: int)
    ensures -1 <= i < |centers|
    ensures i >= 0 ==> Within(x, centers[i])
  {
    if centers == [] then -1
    else
      var last := |centers| - 1;
      if Within(x, centers[last]) then last else Near(centers[..last], x)
  }

  // --- The whole template -------------------------------------------------------------

  predicate OnAlignment(version: nat, r: nat, c: nat)
    requires 1 <= version <= 10
  {
    NearAlignment(version, r) != 0 && NearAlignment(version, c) != 0
  }

  /** The alignment centre coordinate, other than 6, within two modules of x; 0 if there is none. */
  function NearAlignment(version: nat, x: nat): nat
    requires 1 <= version <= 10
  {
    if version >= 2 && Within(x, 4 * version + 10) then 4 * version + 10
    else if version >= 7 && Within(x, 2 * version + 8) then 2 * version + 8
    else 0
  }

  predicate OnVersionInfo(version: nat, r: nat, c: nat) {
    var size := SizeOf(version);
    version >= 7 && ((r < 6 && size - 11 <= c < size - 8) || (c < 6 && size - 11 <= r < size - 8))
  }

  /** The version bit that a module of the version information carries. */
  function VersionIndex(version: nat, r: nat, c: nat): nat
    requires OnVersionInfo(version, r, c)
  {
    var start := SizeOf(version) - 11;
    if r < 6 then 3 * r + (c - start) else 3 * c + (r - start)
  }

  function VersionModule(version: nat, r: nat, c: nat): Module
    requires OnVersionInfo(version, r, c)
  {
    Pattern(BitAt(VersionBits(version), VersionIndex(version, r, c)))
  }

  /** Every module of the template; 0 marks the modules left for data. */
  function TemplateAt(version: nat, r: nat, c: nat): Module
    requires 1 <= version <= 10
  {
    var size := SizeOf(version);
    if r == size - 8 && c == 8 then 3
    else if OnVersionInfo(version, r, c) then VersionModule(version, r, c)
    else if OnFinder(size, r, c) then FinderAt(size, r, c)
    else if OnTiming(size, r, c) then Pattern((r + c) % 2 == 0)
    else if OnAlignment(version, r, c) then AlignmentModule(r - NearAlignment(version, r), c - NearAlignment(version, c))
    else if OnFormatStrip(size, r, c) then 2
    else 0
  }

  // --- Drawing ------------------------------------------------------------------------

  method FinderPattern(m: array2<Module>, row: int, col: int)
    requires m.Length0 == m.Length1
    modifies m
    ensures forall r, c | 0 <= r < m.Length0 && 0 <= c < m.Length1 ::
      m[r, c] == if InFinder(r - row, c - col) then FinderModule(r - row, c - col) else old(m[r, c])
  {
    for dr := -1 to 8
      invariant forall r, c | 0 <= r < m.Length0 && 0 <= c < m.Length1 ::
        m[r, c] == if InFinder(r - row, c - col) && r - row < dr then FinderModule(r - row, c - col) else old(m[r, c])
    {
      for dc := -1 to 8
        invariant forall r, c | 0 <= r < m.Length0 && 0 <= c < m.Length1 ::
          m[r, c] == if InFinder(r - row, c - col) && (r - row < dr || (r - row == dr && c - col < dc))
                     then FinderModule(r - row, c - col) else old(m[r, c])
      {
        var r, c := row + dr, col + dc;
        if r < 0 || r >= m.Length0 || c < 0 || c >= m.Length0 {
          continue;
        }
        m[r, c] := FinderModule(dr, dc);
      }
    }
  }

  method TimingPattern(m: array2<Module>)
    requires m.Length0 == m.Length1 >= 9
    modifies m
    ensures forall r, c | 0 <= r < m.Length0 && 0 <= c < m.Length1 ::
      m[r, c] == if OnTiming(m.Length0, r, c) then Pattern((r + c) % 2 == 0) else old(m[r, c])
  {
    var size := m.Length0;
    var index := 8;
    while index <= size - 9
      invariant 8 <= index
      invariant index <= size - 8 || index == 8
      invariant forall r, c | 0 <= r < size && 0 <= c < size ::
        m[r, c] == if OnTiming(size, r, c) && r < index && c < index then Pattern((r + c) % 2 == 0) else old(m[r, c])
    {
      var value: Module := if index % 2 == 0 then 3 else 2;
      m[6, index] := value;
      m[index, 6] := value;
      index := index + 1;
    }
  }

  /** Centres lie inside the matrix and far enough apart that their patterns do not meet. */
  predicate Spaced(centers: seq<nat>, size: nat) {
    && (forall i | 0 <= i < |centers| :: 2 <= centers[i] < size - 2)
    && (forall i, k | 0 <= i < k < |centers| :: centers[i] + 5 <= centers[k])
  }

  method AlignmentPattern(m: array2<Module>, cr: nat, cc: nat)
    requires m.Length0 == m.Length1 && 2 <= cr < m.Length0 - 2 && 2 <= cc < m.Length0 - 2
    modifies m
    ensures forall r, c | 0 <= r < m.Length0 && 0 <= c < m.Length1 ::
      m[r, c] == if Within(r, cr) && Within(c, cc) then AlignmentModule(r - cr, c - cc) else old(m[r, c])
  {
    for dr := -2 to 3
      invariant forall r, c | 0 <= r < m.Length0 && 0 <= c < m.Length1 ::
        m[r, c] == if Within(r, cr) && Within(c, cc) && r - cr < dr then AlignmentModule(r - cr, c - cc) else old(m[r, c])
    {
      for dc := -2 to 3
        invariant forall r, c | 0 <= r < m.Length0 && 0 <= c < m.Length1 ::
          m[r, c] == if Within(r, cr) && Within(c, cc) && (r - cr < dr || (r - cr == dr && c - cc < dc))
                     then AlignmentModule(r - cr, c - cc) else old(m[r, c])
      {
        m[cr + dr, cc + dc] := AlignmentModule(dr, dc);
      }
    }
  }

  lemma {:induction false} NearUnique(centers: seq<nat>, size: nat, i: nat, x: nat)
    requires Spaced(centers, size) && i < |centers| && Within(x, centers[i])
    ensures Near(centers, x) == i
  {
    var last := |centers| - 1;
    if i < last {
      NearUnique(centers[..last], size, i, x);
    }
  }

  /** Near(centers, x) == i characterises the modules around centre i. */
  lemma NearWithin(centers: seq<nat>, size: nat, i: nat)
    requires Spaced(centers, size) && i < |centers|
    ensures forall x: nat :: Within(x, centers[i]) <==> Near(centers, x) == i
    ensures Near(centers, centers[i]) == i
  {
    forall x: nat | Within(x, centers[i])
      ensures Near(centers, x) == i
    {
      NearUnique(centers, size, i, x);
    }
  }

  /** A module after drawing: `center` is the earlier value of the module its pattern is centred on. */
  function AlignedModule(centers: seq<nat>, r: nat, c: nat, before: Module, center: Module): Module {
    var i, k := Near(centers, r), Near(centers, c);
    if i >= 0 && k >= 0 && center == 0 then AlignmentModule(r - centers[i], c - centers[k]) else before
  }

  /** The centre coordinate near x, or x itself. */
  function CenterNear(centers: seq<nat>, x: nat): nat {
    if Near(centers, x) >= 0 then centers[Near(centers, x)] else x
  }

  lemma CenterNearBound(centers: seq<nat>, size: nat, x: nat)
    requires Spaced(centers, size) && x < size
    ensures CenterNear(centers, x) < size
  {}

  /** The patterns around the free centres of one row of centres. */
  method AlignmentRow(m: array2<Module>, centers: seq<nat>, i: nat)
    requires m.Length0 == m.Length1 && Spaced(centers, m.Length0) && i < |centers|
    modifies m
    ensures forall r, c | 0 <= r < m.Length0 && 0 <= c < m.Length1 ::
      m[r, c] == if Near(centers, r) == i
                 then AlignedModule(centers, r, c, old(m[r, c]), old(m[CenterNear(centers, r), CenterNear(centers, c)]))
                 else old(m[r, c])
  {
    hide AlignmentModule, Near, Within;
    NearWithin(centers, m.Length0, i);
    for k := 0 to |centers|
      invariant forall r, c | 0 <= r < m.Length0 && 0 <= c < m.Length1 ::
        m[r, c] == if Near(centers, r) == i && Near(centers, c) < k
                   then AlignedModule(centers, r, c, old(m[r, c]), old(m[CenterNear(centers, r), CenterNear(centers, c)]))
                   else old(m[r, c])
    {
      NearWithin(centers, m.Length0, k);
      if m[centers[i], centers[k]] == 0 {
        AlignmentPattern(m, centers[i], centers[k]);
      }
    }
  }

  /** Draws a pattern around every pair of centres whose module is still free. */
  method AlignmentPatterns(m: array2<Module>, centers: seq<nat>)
    requires m.Length0 == m.Length1 && Spaced(centers, m.Length0)
    modifies m
    ensures forall r, c | 0 <= r < m.Length0 && 0 <= c < m.Length1 ::
      m[r, c] == AlignedModule(centers, r, c, old(m[r, c]), old(m[CenterNear(centers, r), CenterNear(centers, c)]))
  {
    hide AlignmentModule, Near, Within;
    for i := 0 to |centers|
      invariant forall r, c | 0 <= r < m.Length0 && 0 <= c < m.Length1 ::
        m[r, c] == if Near(centers, r) < i
                   then AlignedModule(centers, r, c, old(m[r, c]), old(m[CenterNear(centers, r), CenterNear(centers, c)]))
                   else old(m[r, c])
    {
      NearWithin(centers, m.Length0, i);
      AlignmentRow(m, centers, i);
    }
  }

  /** Marks the format strips and sets the fixed dark module. */
  method ReserveFormatAreas(m: array2<Module>)
    requires m.Length0 == m.Length1 >= 9
    modifies m
    ensures forall r, c | 0 <= r < m.Length0 && 0 <= c < m.Length1 ::
      m[r, c] == if r == m.Length0 - 8 && c == 8 then 3
                 else if OnFormatStrip(m.Length0, r, c) && old(m[r, c]) == 0 then 2
                 else old(m[r, c])
  {
    var size := m.Length0;
    for index := 0 to 9
      invariant forall r, c | 0 <= r < size && 0 <= c < size ::
        m[r, c] == if old(m[r, c]) == 0 && ((r == 8 && (c < index || c >= size - index)) || (c == 8 && (r < index || r >= size - index)))
                   then 2 else old(m[r, c])
    {
      if m[8, index] == 0 {
        m[8, index] := 2;
      }
      if m[index, 8] == 0 {
        m[index, 8] := 2;
      }
      if m[8, size - 1 - index] == 0 {
        m[8, size - 1 - index] := 2;
      }
      if m[size - 1 - index, 8] == 0 {
        m[size - 1 - index, 8] := 2;
      }
    }
    m[size - 8, 8] := 3;
  }

  lemma VersionIndexInverse(version: nat, r: nat, c: nat, index: nat)
    requires OnVersionInfo(version, r, c) && index < 18
    ensures VersionIndex(version, r, c) < 18
    ensures VersionIndex(version, r, c) == index <==>
      (r == index / 3 && c == SizeOf(version) - 11 + index % 3) || (c == index / 3 && r == SizeOf(version) - 11 + index % 3)
  {}

  lemma VersionPlaces(version: nat, index: nat)
    requires index < 18
    ensures forall r: nat, c: nat | OnVersionInfo(version, r, c) ::
      && VersionIndex(version, r, c) < 18
      && (VersionIndex(version, r, c) == index <==>
            (r == index / 3 && c == SizeOf(version) - 11 + index % 3) || (c == index / 3 && r == SizeOf(version) - 11 + index % 3))
  {
    hide *;
    forall r: nat, c: nat | OnVersionInfo(version, r, c)
      ensures VersionIndex(version, r, c) < 18
      ensures VersionIndex(version, r, c) == index <==>
        (r == index / 3 && c == SizeOf(version) - 11 + index % 3) || (c == index / 3 && r == SizeOf(version) - 11 + index % 3)
    {
      VersionIndexInverse(version, r, c, index);
    }
  }

  method PlaceVersionInfo(m: array2<Module>, version: nat)
    requires m.Length0 == m.Length1 == SizeOf(version)
    modifies m
    ensures forall r, c | 0 <= r < m.Length0 && 0 <= c < m.Length1 ::
      m[r, c] == if OnVersionInfo(version, r, c) then VersionModule(version, r, c) else old(m[r, c])
  {
    if version < 7 {
      return;
    }
    hide VersionBits, BitAt, VersionIndex;
    var bits := VersionBits(version);
    var size := m.Length0;
    for index := 0 to 18
      invariant forall r, c | 0 <= r < size && 0 <= c < size ::
        m[r, c] == if OnVersionInfo(version, r, c) && VersionIndex(version, r, c) < index
                   then VersionModule(version, r, c) else old(m[r, c])
    {
      var value := Pattern(BitAt(bits, index));
      var row, col := index / 3, index % 3;
      VersionPlaces(version, index);
      m[row, size - 11 + col] := value;
      m[size - 11 + col, row] := value;
    }
  }

  /** The finder and timing patterns alone. */
  function EarlyAt(size: nat, r: nat, c: nat): Module {
    if OnFinder(size, r, c) then FinderAt(size, r, c)
    else if OnTiming(size, r, c) then Pattern((r + c) % 2 == 0)
    else 0
  }

  /** The centre table, in closed form. */
  lemma CentersClosed(version: nat)
    requires 1 <= version <= 10
    ensures AlignmentCenters(version) ==
      if version == 1 then [] else if version < 7 then [6, 4 * version + 10] else [6, 2 * version + 8, 4 * version + 10]
    ensures Spaced(AlignmentCenters(version), SizeOf(version))
  {}

  lemma NearClosed(version: nat, x: nat)
    requires 1 <= version <= 10
    ensures var centers := AlignmentCenters(version);
            var i := Near(centers, x);
            if NearAlignment(version, x) != 0 then i >= 0 && centers[i] == NearAlignment(version, x)
            else i >= 0 ==> centers[i] == 6
  {
    CentersClosed(version);
    var centers := AlignmentCenters(version);
    hide AlignmentCenters;
    if version != 1 {
      var last := |centers| - 1;
      assert centers[..last][..last - 1] == centers[..last - 1];
      NearUnfold(centers, x);
      NearUnfold(centers[..last], x);
      NearUnfold(centers[..last - 1], x);
    }
  }

  lemma NearUnfold(centers: seq<nat>, x: nat)
    ensures Near(centers, x) ==
      if centers == [] then -1
      else if Within(x, centers[|centers| - 1]) then |centers| - 1
      else Near(centers[..|centers| - 1], x)
  {}

  /** The patterns before the format strips are reserved. */
  function PatternsAt(version: nat, r: nat, c: nat): Module
    requires 1 <= version <= 10
  {
    if EarlyAt(SizeOf(version), r, c) != 0 then EarlyAt(SizeOf(version), r, c)
    else if OnAlignment(version, r, c) then AlignmentModule(r - NearAlignment(version, r), c - NearAlignment(version, c))
    else 0
  }

  /** Only the pairs of centres off row and column 6, and off the finder patterns, get a pattern. */
  lemma AlignedClosed(version: nat, r: nat, c: nat, centers: seq<nat>)
    requires 1 <= version <= 10 && r < SizeOf(version) && c < SizeOf(version) && centers == AlignmentCenters(version)
    ensures CenterNear(centers, r) < SizeOf(version) && CenterNear(centers, c) < SizeOf(version)
    ensures PatternsAt(version, r, c) == AlignedModule(centers, r, c, EarlyAt(SizeOf(version), r, c),
              EarlyAt(SizeOf(version), CenterNear(centers, r), CenterNear(centers, c)))
  {
    CentersClosed(version);
    CenterNearBound(centers, SizeOf(version), r);
    CenterNearBound(centers, SizeOf(version), c);
    NearClosed(version, r);
    NearClosed(version, c);
    hide Near, AlignmentCenters, FinderModule, AlignmentModule;
  }

  lemma TemplateLayers(version: nat, r: nat, c: nat)
    requires 1 <= version <= 10 && r < SizeOf(version) && c < SizeOf(version)
    ensures TemplateAt(version, r, c) ==
      if OnVersionInfo(version, r, c) then VersionModule(version, r, c)
      else if r == SizeOf(version) - 8 && c == 8 then 3
      else if OnFormatStrip(SizeOf(version), r, c) && PatternsAt(version, r, c) == 0 then 2
      else PatternsAt(version, r, c)
  {
    hide FinderModule, AlignmentModule, VersionModule;
  }

  /** Draws the function patterns of one version. */
  method BuildTemplate(version: nat) returns (m: array2<Module>)
    requires 1 <= version <= 10
    ensures fresh(m) && m.Length0 == m.Length1 == SizeOf(version)
    ensures forall r, c | 0 <= r < m.Length0 && 0 <= c < m.Length1 :: m[r, c] == TemplateAt(version, r, c)
  {
    CentersClosed(version);
    var size := version * 4 + 17;
    m := new Module[size, size]((_, _) => 0);
    DrawFinders(m);
    TimingPattern(m);
    forall r: nat, c: nat | r < size && c < size
      ensures m[r, c] == EarlyAt(size, r, c)
    {
      hide FinderAt, OnFinder;
      if OnTiming(size, r, c) {
        FinderOffTiming(size, r, c);
      }
    }
    hide *;
    AlignmentPatterns(m, AlignmentCenters(version));
    forall r: nat, c: nat | r < size && c < size
      ensures m[r, c] == PatternsAt(version, r, c)
    {
      AlignedClosed(version, r, c, AlignmentCenters(version));
    }
    ReserveFormatAreas(m);
    PlaceVersionInfo(m, version);
    forall r: nat, c: nat | r < size && c < size
      ensures m[r, c] == TemplateAt(version, r, c)
    {
      TemplateLayers(version, r, c);
    }
  }

  lemma FinderOffTiming(size: nat, r: nat, c: nat)
    requires size >= 21 && r < size && c < size && OnTiming(size, r, c)
    ensures !OnFinder(size, r, c)
  {}

  method DrawFinders(m: array2<Module>)
    requires m.Length0 == m.Length1 >= 21
    modifies m
    ensures forall r, c | 0 <= r < m.Length0 && 0 <= c < m.Length1 ::
      m[r, c] == if OnFinder(m.Length0, r, c) then FinderAt(m.Length0, r, c) else old(m[r, c])
  {
    hide FinderModule;
    var size := m.Length0;
    FinderPattern(m, 0, 0);
    FinderPattern(m, 0, size - 7);
    FinderPattern(m, size - 7, 0);
  }
}
