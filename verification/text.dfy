/** Strings as the server treats them: white space, path segments, the order of paths and pattern matching. */
module Text {

  // --- White space ---------------------------------------------------------------------

  /** White space of the character set. */
  predicate Blank(c: char) {
    || c == ' ' || '\t' <= c <= '\r' || c == '\U{0085}' || c == '\U{00A0}' || c == '\U{1680}'
    || '\U{2000}' <= c <= '\U{200A}' || c == '\U{2028}' || c == '\U{2029}' || c == '\U{202F}' || c == '\U{205F}' || c == '\U{3000}'
  }

  function TrimLeft(s: string): string {
    if s != [] && Blank(s[0]) then TrimLeft(s[1..]) else s
  }

  function TrimRight(s: string): string {
    if s != [] && Blank(s[|s| - 1]) then TrimRight(s[..|s| - 1]) else s
  }

  function Trim(s: string): string {
    TrimRight(TrimLeft(s))
  }

  predicate AllBlank(s: string) {
    forall i | 0 <= i < |s| :: Blank(s[i])
  }

  /** Without the white space around it. */
  ghost predicate Stripped(s: string, t: string) {
    && (t != "" ==> !Blank(t[0]) && !Blank(t[|t| - 1]))
    && exists a: string, b: string :: AllBlank(a) && AllBlank(b) && s == a + t + b
  }

  lemma {:induction false} TrimLeftCuts(s: string) returns (a: string)
    ensures AllBlank(a) && s == a + TrimLeft(s) && (TrimLeft(s) != "" ==> !Blank(TrimLeft(s)[0]))
  {
    hide Blank;
    a := "";
    if s != [] && Blank(s[0]) {
      a := TrimLeftCuts(s[1..]);
      a := [s[0]] + a;
    }
  }

  lemma {:induction false} TrimRightCuts(s: string) returns (b: string)
    ensures AllBlank(b) && s == TrimRight(s) + b && (TrimRight(s) != "" ==> !Blank(TrimRight(s)[|TrimRight(s)| - 1]))
  {
    hide Blank;
    b := "";
    if s != [] && Blank(s[|s| - 1]) {
      b := TrimRightCuts(s[..|s| - 1]);
      b := b + [s[|s| - 1]];
    }
  }

  /** Where the rest of a string is all white space, a part with other characters at both ends lies inside any other such part. */
  lemma CoreInside(a: string, t: string, b: string, c: string, u: string, d: string)
    requires a + t + b == c + u + d && AllBlank(c) && AllBlank(d) && t != "" && !Blank(t[0]) && !Blank(t[|t| - 1])
    ensures u != "" && |c| <= |a| && |a| + |t| <= |c| + |u|
  {
    hide Blank;
    BlankOutside(c, u, d, |a|);
    BlankOutside(c, u, d, |a| + |t| - 1);
  }

  lemma BlankOutside(c: string, u: string, d: string, i: nat)
    requires AllBlank(c) && AllBlank(d) && i < |c + u + d| && !Blank((c + u + d)[i])
    ensures |c| <= i < |c| + |u|
  {
    hide Blank;
  }

  lemma StrippedOnce(a: string, t: string, b: string, c: string, u: string, d: string)
    requires a + t + b == c + u + d && AllBlank(a) && AllBlank(b) && AllBlank(c) && AllBlank(d)
    requires (t != "" ==> !Blank(t[0]) && !Blank(t[|t| - 1])) && (u != "" ==> !Blank(u[0]) && !Blank(u[|u| - 1]))
    ensures t == u
  {
    hide Blank, AllBlank;
    if t != "" {
      CoreInside(a, t, b, c, u, d);
      CoreInside(c, u, d, a, t, b);
      SamePlace(a, t, b, c, u, d);
    } else if u != "" {
      CoreInside(c, u, d, a, t, b);
    }
  }

  lemma SamePlace(a: string, t: string, b: string, c: string, u: string, d: string)
    requires a + t + b == c + u + d && |a| == |c| && |t| == |u|
    ensures t == u
  {
    assert t == (a + t + b)[|a|..|a| + |t|] && u == (c + u + d)[|c|..|c| + |u|];
  }

  /** Trimming takes away all white space around a string, and nothing else. */
  lemma TrimExactly(s: string, t: string)
    ensures Trim(s) == t <==> Stripped(s, t)
  {
    hide TrimLeft, TrimRight, Blank, AllBlank;
    var a := TrimLeftCuts(s);
    var left := TrimLeft(s);
    var b := TrimRightCuts(left);
    var core := TrimRight(left);
    assert s == a + core + b;
    if core != "" {
      assert left[0] == core[0];
    }
    assert Stripped(s, core);
    if Stripped(s, t) {
      var c: string, d: string :| AllBlank(c) && AllBlank(d) && s == c + t + d;
      StrippedOnce(a, core, b, c, t, d);
    }
  }

  /** Nothing is left exactly of white space. */
  lemma TrimBlank(s: string)
    ensures Trim(s) == "" <==> AllBlank(s)
    ensures Stripped(s, Trim(s))
  {
    hide Trim, Blank;
    TrimExactly(s, "");
    TrimExactly(s, Trim(s));
    if Stripped(s, "") {
      var a: string, b: string :| AllBlank(a) && AllBlank(b) && s == a + "" + b;
      assert AllBlank(a + "" + b);
    }
    assert AllBlank("") && s == s + "" + "";
  }

  /** The white space of the character set, listed. */
  lemma BlankCharacters(c: char)
    ensures Blank(c) <==> c as int in {
      9, 10, 11, 12, 13, 32, 0x85, 0xa0, 0x1680, 0x2000, 0x2001, 0x2002, 0x2003, 0x2004, 0x2005, 0x2006, 0x2007, 0x2008, 0x2009, 0x200a,
      0x2028, 0x2029, 0x202f, 0x205f, 0x3000}
  {
    assert ('\t' as int, '\r' as int, ' ' as int) == (9, 13, 32);
  }

  /** How many bytes a character takes in UTF-8. */
  function Width(c: char): nat {
    if c < '\U{0080}' then 1 else if c < '\U{0800}' then 2 else if c < '\U{10000}' then 3 else 4
  }

  function ByteLength(s: string): nat {
    if s == [] then 0 else Width(s[0]) + ByteLength(s[1..])
  }

  /** How many characters have at least this code. */
  function AtLeast(s: string, code: nat): nat {
    if s == [] then 0 else (if s[0] as int >= code then 1 else 0) + AtLeast(s[1..], code)
  }

  /** Every character takes a byte, and one more from each of the codes 0x80, 0x800 and 0x10000 on. */
  lemma {:induction false} ByteLengthExactly(s: string)
    ensures ByteLength(s) == |s| + AtLeast(s, 0x80) + AtLeast(s, 0x800) + AtLeast(s, 0x10000)
  {
    if s != [] {
      ByteLengthExactly(s[1..]);
    }
  }

  // --- Path segments -------------------------------------------------------------------

  predicate SafeSegment(s: string) {
    s != "" && s != "." && s != ".."
  }

  predicate PlainCharacter(c: char) {
    'a' <= c <= 'z' || 'A' <= c <= 'Z' || '0' <= c <= '9' || c == '-' || c == '_' || c == '.'
  }

  predicate SafeBundleName(s: string) {
    SafeSegment(s) && forall c | c in s :: PlainCharacter(c)
  }

  lemma UpperLetters(c: char)
    ensures 'A' <= c <= 'Z' <==> c in "ABCDEFGHIJKLMNOPQRSTUVWXYZ"
  {
    var letters := "ABCDEFGHIJKLMNOPQRSTUVWXYZ";
    assert 'A' <= c <= 'Z' ==> letters[c as int - 'A' as int] == c;
  }

  lemma LowerLetters(c: char)
    ensures 'a' <= c <= 'z' <==> c in "abcdefghijklmnopqrstuvwxyz"
  {
    var letters := "abcdefghijklmnopqrstuvwxyz";
    assert 'a' <= c <= 'z' ==> letters[c as int - 'a' as int] == c;
  }

  lemma Figures(c: char)
    ensures '0' <= c <= '9' <==> c in "0123456789"
  {
    var figures := "0123456789";
    assert '0' <= c <= '9' ==> figures[c as int - '0' as int] == c;
  }

  /** The plain characters, listed. */
  lemma PlainCharacters(c: char)
    ensures PlainCharacter(c) <==>
      c in "ABCDEFGHIJKLMNOPQRSTUVWXYZ" || c in "abcdefghijklmnopqrstuvwxyz" || c in "0123456789" || c in "-_."
  {
    UpperLetters(c);
    LowerLetters(c);
    Figures(c);
    assert c in "-_." <==> c == '-' || c == '_' || c == '.';
  }

  /** A plain name is not one that stays or climbs and has only plain characters. */
  lemma BundleNamesExactly(s: string)
    ensures SafeBundleName(s) <==>
      && s !in {"", ".", ".."}
      && forall c | c in s ::
           c in "ABCDEFGHIJKLMNOPQRSTUVWXYZ" || c in "abcdefghijklmnopqrstuvwxyz" || c in "0123456789" || c in "-_."
  {
    hide PlainCharacter;
    forall c: char
      ensures PlainCharacter(c) <==>
        c in "ABCDEFGHIJKLMNOPQRSTUVWXYZ" || c in "abcdefghijklmnopqrstuvwxyz" || c in "0123456789" || c in "-_."
    {
      PlainCharacters(c);
    }
  }

  /** A path without empty segments and without dots to climb. */
  predicate Clean(p: seq<string>) {
    p != [] && forall i | 0 <= i < |p| :: SafeSegment(p[i])
  }

  /** Where a path leads from a directory: nothing and a dot stay, two dots climb. */
  function Walk(at: seq<string>, p: seq<string>): seq<string>
    decreases |p|
  {
    if p == [] then at
    else
      var next := if p[0] == "" || p[0] == "." then at else if p[0] == ".." then (if at == [] then [] else at[..|at| - 1]) else at + [p[0]];
      Walk(next, p[1..])
  }

  lemma {:induction false} WalkLength(at: seq<string>, p: seq<string>)
    ensures |Walk(at, p)| <= |at| + |p|
    decreases |p|
  {
    if p != [] {
      var next := if p[0] == "" || p[0] == "." then at else if p[0] == ".." then (if at == [] then [] else at[..|at| - 1]) else at + [p[0]];
      WalkLength(next, p[1..]);
    }
  }

  lemma {:induction false} WalkStraight(at: seq<string>, p: seq<string>)
    ensures Walk(at, p) == at + p <==> forall i | 0 <= i < |p| :: SafeSegment(p[i])
    decreases |p|
  {
    if p != [] {
      if SafeSegment(p[0]) {
        WalkStraight(at + [p[0]], p[1..]);
        assert at + [p[0]] + p[1..] == at + p;
      } else {
        WalkLength(if p[0] != ".." then at else if at == [] then [] else at[..|at| - 1], p[1..]);
        assert |Walk(at, p)| < |at + p|;
      }
    }
  }

  /** The clean paths are those that lead, from anywhere, straight down to the place they name. */
  lemma CleanExactly(at: seq<string>, p: seq<string>)
    ensures Clean(p) <==> p != [] && Walk(at, p) == at + p
  {
    hide Walk, SafeSegment;
    WalkStraight(at, p);
  }

  /** The segments joined by slashes. */
  function Joined(p: seq<string>): string {
    if p == [] then "" else if |p| == 1 then p[0] else p[0] + "/" + Joined(p[1..])
  }

  // --- The order of strings ------------------------------------------------------------

  /** Character by character; a string comes after its own beginnings. */
  predicate AtMost(a: string, b: string) {
    a == [] || (b != [] && (a[0] < b[0] || (a[0] == b[0] && AtMost(a[1..], b[1..]))))
  }

  lemma {:induction false} AtMostTotal(a: string, b: string)
    ensures AtMost(a, b) || AtMost(b, a)
  {
    if a != [] && b != [] {
      AtMostTotal(a[1..], b[1..]);
    }
  }

  lemma {:induction false} AtMostTransitive(a: string, b: string, c: string)
    requires AtMost(a, b) && AtMost(b, c)
    ensures AtMost(a, c)
  {
    if a != [] && a[0] == b[0] == c[0] {
      AtMostTransitive(a[1..], b[1..], c[1..]);
    }
  }

  /** Where two strings first differ, the first one has the smaller character. */
  predicate LessAt(a: string, b: string, i: nat) {
    i < |a| && i < |b| && a[..i] == b[..i] && a[i] < b[i]
  }

  lemma LessAtTail(a: string, b: string, i: nat)
    requires a != [] && b != [] && a[0] == b[0]
    ensures LessAt(a, b, i + 1) <==> LessAt(a[1..], b[1..], i)
    ensures !LessAt(a, b, 0)
  {
    if LessAt(a[1..], b[1..], i) {
      assert a[..i + 1] == [a[0]] + a[1..][..i] && b[..i + 1] == [b[0]] + b[1..][..i];
    }
    if LessAt(a, b, i + 1) {
      assert a[1..][..i] == a[..i + 1][1..] && b[1..][..i] == b[..i + 1][1..];
    }
  }

  /** The order compares at the first difference, and puts a string after its own beginnings. */
  lemma {:induction false} AtMostExactly(a: string, b: string)
    ensures AtMost(a, b) <==> a <= b || exists i: nat :: LessAt(a, b, i)
  {
    hide LessAt;
    if a == [] || b == [] || a[0] != b[0] {
      LessAtFirst(a, b);
    } else {
      AtMostExactly(a[1..], b[1..]);
      LessInTails(a, b);
      assert a <= b <==> a[1..] <= b[1..];
    }
  }

  lemma LessInTails(a: string, b: string)
    requires a != [] && b != [] && a[0] == b[0]
    ensures (exists i: nat :: LessAt(a, b, i)) <==> exists i: nat :: LessAt(a[1..], b[1..], i)
  {
    hide LessAt;
    if i: nat :| LessAt(a, b, i) {
      LessAtTail(a, b, if i == 0 then 0 else i - 1);
    }
    if i: nat :| LessAt(a[1..], b[1..], i) {
      LessAtTail(a, b, i);
    }
  }

  lemma SameStart(a: string, b: string, i: nat)
    requires i <= |a| && i <= |b| && a[..i] == b[..i]
    ensures i > 0 ==> a[0] == b[0]
  {
    assert i > 0 ==> a[..i][0] == a[0] && b[..i][0] == b[0];
  }

  lemma LessAtFirst(a: string, b: string)
    requires a == [] || b == [] || a[0] != b[0]
    ensures (exists i: nat :: LessAt(a, b, i)) <==> a != [] && b != [] && a[0] < b[0]
    ensures a <= b <==> a == []
  {
    forall i: nat | LessAt(a, b, i)
      ensures i == 0
    {
      SameStart(a, b, i);
    }
    assert a != [] && b != [] && a[0] < b[0] ==> LessAt(a, b, 0);
  }

  // --- Pattern matching of the database ------------------------------------------------

  function Lower(c: char): char {
    if 'A' <= c <= 'Z' then (c as int + 32) as char else c
  }

  /** The 26 capitals get their small letters, and no other character changes. */
  lemma LowerExactly(c: char)
    ensures var capitals, small := "ABCDEFGHIJKLMNOPQRSTUVWXYZ", "abcdefghijklmnopqrstuvwxyz";
            && (forall i | 0 <= i < 26 :: c == capitals[i] ==> Lower(c) == small[i])
            && (c !in capitals ==> Lower(c) == c)
  {
    UpperLetters(c);
    var capitals, small := "ABCDEFGHIJKLMNOPQRSTUVWXYZ", "abcdefghijklmnopqrstuvwxyz";
    assert forall i | 0 <= i < 26 :: capitals[i] as int == i + 65;
    assert forall i | 0 <= i < 26 :: small[i] as int == i + 97;
  }

  /** A pattern of plain characters and single-character wildcards, followed by anything; letters match in either case. */
  predicate StartsLike(s: string, pattern: string) {
    |pattern| <= |s| && forall i | 0 <= i < |pattern| :: pattern[i] == '_' || Lower(pattern[i]) == Lower(s[i])
  }
}
