/** How many errors the code separates: distinct codewords differ in more than n positions. */
module ReedSolomonDistance {
  import opened GF256
  import opened ReedSolomon

  /** The number of positions in which two words differ. */
  function Distance(u: seq<Elem>, v: seq<Elem>): nat
    requires |u| == |v|
  {
    if u == [] then 0 else (if u[0] != v[0] then 1 else 0) + Distance(u[1..], v[1..])
  }

  /** A nonzero coefficient and the degree it stands at. */
  datatype Term = Term(c: Elem, e: nat)

  /** The nonzero terms of a polynomial. */
  function Terms(d: seq<Elem>): seq<Term> {
    if d == [] then []
    else (if d[0] != 0 then [Term(d[0], |d| - 1)] else []) + Terms(d[1..])
  }

  /** The value at a^j, summed over the terms. */
  function Syndrome(terms: seq<Term>, j: nat): Elem {
    if terms == [] then 0
    else Add(Mul(terms[0].c, Power(terms[0].e * j)), Syndrome(terms[1..], j))
  }

  predicate DistinctDegrees(terms: seq<Term>, bound: nat) {
    && (forall t | t in terms :: t.e < bound)
    && (forall i, k | 0 <= i < k < |terms| :: terms[i].e != terms[k].e)
  }

  lemma {:induction false} PowPower(j: nat, n: nat)
    ensures Pow(Power(j), n) == Power(n * j)
  {
    hide *;
    PowZero(Power(j));
    if n != 0 {
      PowPower(j, n - 1);
      PowUnfold(Power(j), n);
      PowerAdd((n - 1) * j, j);
      Successor(n, j);
    }
  }

  lemma Successor(n: nat, j: nat)
    requires n > 0
    ensures (n - 1) * j + j == n * j
  {}

  lemma PowZero(y: Elem)
    ensures Pow(y, 0) == 1 == Power(0)
  {}

  lemma PowUnfold(y: Elem, n: nat)
    requires n > 0
    ensures Pow(y, n) == Mul(Pow(y, n - 1), y)
  {}

  lemma {:induction false} EvalIsSyndrome(d: seq<Elem>, j: nat)
    ensures Eval(d, Power(j)) == Syndrome(Terms(d), j)
  {
    if d != [] {
      hide Add, Mul, Power, Eval, Pow;
      EvalIsSyndrome(d[1..], j);
      assert d == [d[0]] + d[1..];
      EvalFront(d[0], d[1..], Power(j));
      PowPower(j, |d| - 1);
      if d[0] == 0 {
        MulZero(0, Pow(Power(j), |d| - 1));
        AddZero(Eval(d[1..], Power(j)));
        assert Terms(d) == Terms(d[1..]);
      } else {
        assert Terms(d)[1..] == Terms(d[1..]);
      }
    } else {
      assert Eval([], Power(j)) == 0;
    }
  }

  lemma {:induction false} TermsDistinct(d: seq<Elem>)
    ensures DistinctDegrees(Terms(d), |d|)
    ensures forall t | t in Terms(d) :: t.c != 0
  {
    if d != [] {
      TermsDistinct(d[1..]);
    }
  }

  lemma {:induction false} TermsCount(u: seq<Elem>, v: seq<Elem>)
    requires |u| == |v|
    ensures |Terms(Sum(u, v))| == Distance(u, v)
  {
    if u != [] {
      TermsCount(u[1..], v[1..]);
      assert Sum(u, v)[1..] == Sum(u[1..], v[1..]);
      AddIsZero(u[0], v[0]);
    }
  }

  /** Multiplies every coefficient by the distance of its locator from a given one. */
  function Eliminate(terms: seq<Term>, x: nat): (s: seq<Term>)
    ensures |s| == |terms|
    ensures forall i | 0 <= i < |s| :: s[i] == Term(Mul(terms[i].c, Add(Power(terms[i].e), Power(x))), terms[i].e)
  {
    if terms == [] then []
    else [Term(Mul(terms[0].c, Add(Power(terms[0].e), Power(x))), terms[0].e)] + Eliminate(terms[1..], x)
  }

  lemma {:induction false} EliminateSyndrome(terms: seq<Term>, x: nat, j: nat)
    ensures Syndrome(Eliminate(terms, x), j) == Add(Syndrome(terms, j + 1), Mul(Power(x), Syndrome(terms, j)))
  {
    hide Add, Mul, Power;
    if terms == [] {
      AddZero(0);
      MulZero(Power(x), 0);
    } else {
      var c, e := terms[0].c, terms[0].e;
      EliminateSyndrome(terms[1..], x, j);
      assert Eliminate(terms, x)[1..] == Eliminate(terms[1..], x);
      var s1, s0 := Syndrome(terms[1..], j + 1), Syndrome(terms[1..], j);
      assert Mul(Mul(c, Add(Power(e), Power(x))), Power(e * j))
          == Add(Mul(c, Power(e * (j + 1))), Mul(Power(x), Mul(c, Power(e * j)))) by {
        EliminateTerm(c, e, x, j);
      }
      MulLinearRight(Power(x), Mul(c, Power(e * j)), s0);
      AddSwap(Mul(c, Power(e * (j + 1))), Mul(Power(x), Mul(c, Power(e * j))), s1, Mul(Power(x), s0));
    }
  }

  lemma EliminateTerm(c: Elem, e: nat, x: nat, j: nat)
    ensures Mul(Mul(c, Add(Power(e), Power(x))), Power(e * j))
         == Add(Mul(c, Power(e * (j + 1))), Mul(Power(x), Mul(c, Power(e * j))))
  {
    hide *;
    var p, q, r := Power(e), Power(x), Power(e * j);
    MulLinearRight(c, p, q);
    MulLinearLeft(Mul(c, p), Mul(c, q), r);
    MulAssoc(c, p, r);
    PowerAdd(e, e * j);
    assert e + e * j == e * (j + 1);
    MulComm(c, q);
    MulAssoc(q, c, r);
  }

  lemma ReducedSyndrome(terms: seq<Term>, j: nat)
    requires terms != [] && Syndrome(terms, j) == 0 && Syndrome(terms, j + 1) == 0
    ensures Syndrome(Eliminate(terms[1..], terms[0].e), j) == 0
  {
    hide Add, Mul, Power;
    var x, c := terms[0].e, terms[0].c;
    var reduced := Eliminate(terms[1..], x);
    EliminateSyndrome(terms, x, j);
    assert Eliminate(terms, x)[1..] == reduced;
    MulZero(Power(x), 0);
    AddZero(0);
    AddZero(Power(x));
    MulZero(c, 0);
    MulZero(0, Power(x * j));
    AddZero(Syndrome(reduced, j));
  }

  /** Once the others are zero, the constant syndrome is the first coefficient. */
  /** Elimination leaves the degrees of the other terms. */
  lemma EliminateDegrees(terms: seq<Term>)
    requires terms != [] && DistinctDegrees(terms, 255)
    ensures DistinctDegrees(Eliminate(terms[1..], terms[0].e), 255)
  {
    hide Add, Mul, Power;
    var reduced := Eliminate(terms[1..], terms[0].e);
    forall t | t in reduced
      ensures t.e < 255
    {
      var i :| 0 <= i < |reduced| && reduced[i] == t;
      assert terms[1..][i] in terms;
    }
  }

  /** If the eliminated terms vanish, so do the terms they come from. */
  lemma OthersVanish(terms: seq<Term>)
    requires terms != [] && DistinctDegrees(terms, 255)
    requires forall t | t in Eliminate(terms[1..], terms[0].e) :: t.c == 0
    ensures forall t | t in terms[1..] :: t.c == 0
  {
    hide Add, Mul, Power;
    var x, rest := terms[0].e, terms[1..];
    var reduced := Eliminate(rest, x);
    assert terms[0] in terms;
    forall i | 0 <= i < |rest|
      ensures rest[i].c == 0
    {
      assert reduced[i] in reduced && rest[i] in terms && rest[i].e != x;
      NonzeroFactor(rest[i].c, rest[i].e, x);
    }
  }

  lemma FirstVanishes(terms: seq<Term>)
    requires terms != [] && Syndrome(terms, 0) == 0
    requires forall t | t in terms[1..] :: t.c == 0
    ensures terms[0].c == 0
  {
    var c, x := terms[0].c, terms[0].e;
    assert Power(0) == 1;
    assert x * 0 == 0;
    hide Add, Mul, Power;
    AllZeroSyndrome(terms[1..], 0);
    MulOne(c);
    AddZero(c);
  }

  /**
   * Few terms with distinct locators cannot have n vanishing syndromes unless all coefficients vanish:
   * the Vandermonde argument, eliminating one term at a time.
   */
  lemma {:induction false} TermsVanish(terms: seq<Term>, n: nat)
    requires |terms| <= n
    requires DistinctDegrees(terms, 255)
    requires forall j: nat | j < n :: Syndrome(terms, j) == 0
    ensures forall t | t in terms :: t.c == 0
    decreases |terms|
  {
    if terms != [] {
      hide Add, Mul, Power, Syndrome, Eliminate, DistinctDegrees;
      var reduced := Eliminate(terms[1..], terms[0].e);
      forall j: nat | j < n - 1
        ensures Syndrome(reduced, j) == 0
      {
        assert Syndrome(terms, j) == 0 && Syndrome(terms, j + 1) == 0;
        ReducedSyndrome(terms, j);
      }
      EliminateDegrees(terms);
      TermsVanish(reduced, n - 1);
      OthersVanish(terms);
      assert Syndrome(terms, 0) == 0;
      FirstVanishes(terms);
      assert terms == [terms[0]] + terms[1..];
    }
  }

  lemma NonzeroFactor(c: Elem, e: nat, x: nat)
    requires e < 255 && x < 255 && e != x
    requires Mul(c, Add(Power(e), Power(x))) == 0
    ensures c == 0
  {
    hide *;
    AddIsZero(Power(e), Power(x));
    if Power(e) == Power(x) {
      PowerInjective(e, x);
    } else if c != 0 {
      NoZeroDivisors(c, Add(Power(e), Power(x)));
    }
  }

  lemma {:induction false} AllZeroSyndrome(terms: seq<Term>, j: nat)
    requires forall t | t in terms :: t.c == 0
    ensures Syndrome(terms, j) == 0
  {
    if terms != [] {
      hide Add, Mul, Power;
      AllZeroSyndrome(terms[1..], j);
      assert terms[0] in terms;
      MulZero(0, Power(terms[0].e * j));
      AddZero(0);
    }
  }

  lemma {:induction false} DistanceZero(u: seq<Elem>, v: seq<Elem>)
    requires |u| == |v| && Distance(u, v) == 0
    ensures u == v
  {
    if u != [] {
      DistanceZero(u[1..], v[1..]);
      assert u == [u[0]] + u[1..] && v == [v[0]] + v[1..];
    }
  }

  /** Two words of the code that differ in at most n positions are the same word. */
  lemma MinimumDistance(u: seq<Elem>, v: seq<Elem>, n: nat)
    requires |u| == |v| <= 255
    requires IsCodeword(u, n) && IsCodeword(v, n)
    requires Distance(u, v) <= n
    ensures u == v
  {
    hide Add, Mul, Power, Eval;
    var d := Sum(u, v);
    var terms := Terms(d);
    forall j: nat | j < n
      ensures Syndrome(terms, j) == 0
    {
      EvalSum(u, v, Power(j));
      AddZero(0);
      EvalIsSyndrome(d, j);
    }
    TermsDistinct(d);
    TermsCount(u, v);
    assert terms != [] ==> terms[0] in terms && terms[0].c != 0;
    TermsVanish(terms, n);
    DistanceZero(u, v);
  }

  lemma {:induction false} DistanceTriangle(u: seq<Elem>, w: seq<Elem>, v: seq<Elem>)
    requires |u| == |w| == |v|
    ensures Distance(u, v) <= Distance(u, w) + Distance(w, v)
    ensures Distance(u, w) == Distance(w, u)
  {
    if u != [] {
      DistanceTriangle(u[1..], w[1..], v[1..]);
    }
  }

  /** Any word within n/2 symbol errors of the code has one nearest codeword. */
  lemma UniqueCorrection(received: seq<Elem>, u: seq<Elem>, v: seq<Elem>, n: nat)
    requires |received| == |u| == |v| <= 255
    requires IsCodeword(u, n) && IsCodeword(v, n)
    requires 2 * Distance(received, u) <= n && 2 * Distance(received, v) <= n
    ensures u == v
  {
    DistanceTriangle(u, received, v);
    MinimumDistance(u, v, n);
  }

  lemma {:induction false} DistanceCommonPrefix(p: seq<Elem>, u: seq<Elem>, v: seq<Elem>)
    requires |u| == |v|
    ensures Distance(p + u, p + v) == Distance(u, v) <= |u|
    decreases |p| + |u|
  {
    if p != [] {
      assert (p + u)[1..] == p[1..] + u && (p + v)[1..] == p[1..] + v;
      DistanceCommonPrefix(p[1..], u, v);
    } else {
      assert p + u == u && p + v == v;
      if u != [] {
        DistanceCommonPrefix([], u[1..], v[1..]);
        assert [] + u[1..] == u[1..] && [] + v[1..] == v[1..];
      }
    }
  }

  /** The error-correction codewords are the only ones that complete the data to a word of the code. */
  lemma CheckIsUnique(data: seq<Elem>, r: seq<Elem>, n: nat)
    requires n > 0 && |r| == n && |data| + n <= 255
    ensures IsCodeword(data + r, n) <==> r == Check(data, n)
  {
    CheckMakesCodeword(data, n);
    if IsCodeword(data + r, n) {
      DistanceCommonPrefix(data, r, Check(data, n));
      MinimumDistance(data + r, data + Check(data, n), n);
      assert r == (data + r)[|data|..];
      assert Check(data, n) == (data + Check(data, n))[|data|..];
    }
  }
}
