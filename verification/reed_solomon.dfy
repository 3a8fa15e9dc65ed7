/**
 * Reed-Solomon codes over GF(256). A polynomial is a sequence of coefficients, highest degree first.
 */
module ReedSolomon {
  import opened Bitwise
  import opened GF256

  /** The value of a polynomial at y. */
  function Eval(p: seq<Elem>, y: Elem): Elem {
    if p == [] then 0 else Add(Mul(Eval(p[..|p| - 1], y), y), p[|p| - 1])
  }

  function Sum(p: seq<Elem>, q: seq<Elem>): (s: seq<Elem>)
    requires |p| == |q|
    ensures |s| == |p|
  {
    seq(|p|, i requires 0 <= i < |p| => Add(p[i], q[i]))
  }

  function Scale(p: seq<Elem>, c: Elem): (s: seq<Elem>)
    ensures |s| == |p|
  {
    seq(|p|, i requires 0 <= i < |p| => Mul(p[i], c))
  }

  function Zeros(n: nat): (s: seq<Elem>)
    ensures |s| == n
  {
    seq(n, _ => 0)
  }

  /** The product of p and x + c. */
  function TimesRoot(p: seq<Elem>, c: Elem): (s: seq<Elem>)
    ensures |s| == |p| + 1
  {
    Sum(p + [0], [0] + Scale(p, c))
  }

  /** (x + 1)(x + a)...(x + a^(n-1)), where a is the field's primitive element. */
  function Generator(n: nat): (g: seq<Elem>)
    ensures |g| == n + 1
  {
    if n == 0 then [1] else TimesRoot(Generator(n - 1), Power(n - 1))
  }

  /** One step of the division register: shift a coefficient in and subtract a multiple of the generator. */
  function Step(r: seq<Elem>, b: Elem): (s: seq<Elem>)
    requires r != []
    ensures |s| == |r|
  {
    Sum(r[1..] + [0], Scale(Generator(|r|)[1..], Add(b, r[0])))
  }

  /** The error-correction codewords of a data block. */
  function Check(data: seq<Elem>, n: nat): (r: seq<Elem>)
    requires n > 0
    ensures |r| == n
  {
    if data == [] then Zeros(n) else Step(Check(data[..|data| - 1], n), data[|data| - 1])
  }

  /** A word of the code: its polynomial vanishes at the first n powers of the primitive element. */
  ghost predicate IsCodeword(w: seq<Elem>, n: nat) {
    forall j: nat | j < n :: Eval(w, Power(j)) == 0
  }

  // --- Evaluation is linear -----------------------------------------------------------

  lemma {:induction false} EvalSum(p: seq<Elem>, q: seq<Elem>, y: Elem)
    requires |p| == |q|
    ensures Eval(Sum(p, q), y) == Add(Eval(p, y), Eval(q, y))
  {
    hide Add, Mul;
    AddZero(0);
    if p != [] {
      var n := |p| - 1;
      EvalSum(p[..n], q[..n], y);
      assert Sum(p, q)[..n] == Sum(p[..n], q[..n]);
      MulLinearLeft(Eval(p[..n], y), Eval(q[..n], y), y);
      AddSwap(Mul(Eval(p[..n], y), y), Mul(Eval(q[..n], y), y), p[n], q[n]);
    }
  }

  lemma {:induction false} EvalScale(p: seq<Elem>, c: Elem, y: Elem)
    ensures Eval(Scale(p, c), y) == Mul(Eval(p, y), c)
  {
    hide Add, Mul;
    MulZero(0, c);
    if p != [] {
      var n := |p| - 1;
      var e := Eval(p[..n], y);
      EvalScale(p[..n], c, y);
      assert Scale(p, c)[..n] == Scale(p[..n], c);
      MulLinearLeft(Mul(e, y), p[n], c);
      MulAssoc(e, y, c);
      MulComm(y, c);
      MulAssoc(e, c, y);
    }
  }

  lemma EvalAppend(p: seq<Elem>, b: Elem, y: Elem)
    ensures Eval(p + [b], y) == Add(Mul(Eval(p, y), y), b)
  {
    assert (p + [b])[..|p|] == p;
  }

  /** Powers of an arbitrary element. */
  function Pow(y: Elem, n: nat): Elem {
    if n == 0 then 1 else Mul(Pow(y, n - 1), y)
  }

  lemma {:induction false} EvalConcat(p: seq<Elem>, q: seq<Elem>, y: Elem)
    ensures Eval(p + q, y) == Add(Mul(Eval(p, y), Pow(y, |q|)), Eval(q, y))
  {
    hide Add, Mul;
    if q == [] {
      assert p + q == p;
      MulOne(Eval(p, y));
      AddZero(Eval(p, y));
    } else {
      var n := |q| - 1;
      var e, f := Eval(p, y), Eval(q[..n], y);
      EvalConcat(p, q[..n], y);
      assert (p + q)[..|p| + n] == p + q[..n];
      MulLinearLeft(Mul(e, Pow(y, n)), f, y);
      MulAssoc(e, Pow(y, n), y);
      AddAssoc(Mul(e, Pow(y, n + 1)), Mul(f, y), q[n]);
    }
  }

  lemma AddAssoc(a: Elem, b: Elem, c: Elem)
    ensures Add(Add(a, b), c) == Add(a, Add(b, c))
  {
    XorAssoc(a, b, c);
  }

  lemma {:induction false} EvalZeros(n: nat, y: Elem)
    ensures Eval(Zeros(n), y) == 0
  {
    if n != 0 {
      EvalZeros(n - 1, y);
      assert Zeros(n)[..n - 1] == Zeros(n - 1);
      hide Add, Mul;
      MulZero(0, y);
      AddZero(0);
    }
  }

  lemma EvalFront(a: Elem, p: seq<Elem>, y: Elem)
    ensures Eval([a] + p, y) == Add(Mul(a, Pow(y, |p|)), Eval(p, y))
  {
    hide Add, Mul;
    EvalConcat([a], p, y);
    EvalAppend([], a, y);
    MulZero(0, y);
    AddZero(a);
    assert [] + [a] == [a];
  }

  // --- The generator and its roots ----------------------------------------------------

  lemma EvalTimesRoot(p: seq<Elem>, c: Elem, y: Elem)
    ensures Eval(TimesRoot(p, c), y) == Mul(Eval(p, y), Add(y, c))
  {
    hide Add, Mul, Eval;
    var e := Eval(p, y);
    EvalSum(p + [0], [0] + Scale(p, c), y);
    EvalAppend(p, 0, y);
    AddZero(Mul(e, y));
    EvalFront(0, Scale(p, c), y);
    MulZero(0, Pow(y, |p|));
    AddZero(Eval(Scale(p, c), y));
    EvalScale(p, c, y);
    MulLinearRight(e, y, c);
  }

  lemma {:induction false} GeneratorRoots(n: nat, j: nat)
    requires j < n
    ensures Eval(Generator(n), Power(j)) == 0
  {
    hide Add, Mul, Eval, Power;
    EvalTimesRoot(Generator(n - 1), Power(n - 1), Power(j));
    if j < n - 1 {
      GeneratorRoots(n - 1, j);
      MulZero(0, Add(Power(j), Power(n - 1)));
    } else {
      AddZero(Power(j));
      MulZero(Eval(Generator(n - 1), Power(j)), 0);
    }
  }

  lemma {:induction false} GeneratorMonic(n: nat)
    ensures Generator(n)[0] == 1
  {
    if n != 0 {
      GeneratorMonic(n - 1);
      AddZero(1);
    }
  }

  /** At a root of the generator, one step multiplies the register by y and adds b*y^n. */
  /** At a root of the generator the fed-back part contributes the leading power. */
  lemma EvalFeedback(r: seq<Elem>, b: Elem, y: Elem)
    requires r != [] && Eval(Generator(|r|), y) == 0
    ensures Eval(Step(r, b), y) == Add(Mul(Eval(r[1..], y), y), Mul(Pow(y, |r|), Add(b, r[0])))
  {
    hide Add, Mul, Eval, Pow, Generator, Scale;
    var n := |r|;
    var g, tail, yn := Generator(n)[1..], r[1..], Pow(y, n);
    var f := Add(b, r[0]);
    GeneratorMonic(n);
    assert Generator(n) == [1] + g;
    EvalFront(1, g, y);
    MulOne(yn);
    AddIsZero(yn, Eval(g, y));
    assert Eval(g, y) == yn;
    EvalSum(tail + [0], Scale(g, f), y);
    EvalScale(g, f, y);
    EvalAppend(tail, 0, y);
    AddZero(Mul(Eval(tail, y), y));
  }

  lemma EvalStep(r: seq<Elem>, b: Elem, y: Elem)
    requires r != [] && Eval(Generator(|r|), y) == 0
    ensures Eval(Step(r, b), y) == Add(Mul(Eval(r, y), y), Mul(b, Pow(y, |r|)))
  {
    hide Add, Mul, Eval, Step, Generator;
    var n := |r|;
    var tail, yn := r[1..], Pow(y, n);
    assert r == [r[0]] + tail;
    EvalFeedback(r, b, y);
    EvalFront(r[0], tail, y);
    MulLinearLeft(Mul(r[0], Pow(y, n - 1)), Eval(tail, y), y);
    MulAssoc(r[0], Pow(y, n - 1), y);
    MulComm(yn, Add(b, r[0]));
    MulLinearLeft(b, r[0], yn);
    Rearrange(Mul(r[0], yn), Mul(Eval(tail, y), y), Mul(b, yn));
  }

  lemma Rearrange(a: Elem, t: Elem, b: Elem)
    ensures Add(t, Add(b, a)) == Add(Add(a, t), b)
  {
    hide Xor;
    XorComm(b, a);
    XorAssoc(a, t, b);
    XorAssoc(t, a, b);
    XorComm(a, t);
  }

  lemma AddIsZero(a: Elem, b: Elem)
    ensures Add(a, b) == 0 <==> a == b
  {
    XorZero(a, b);
  }

  /** At a root of the generator, the check polynomial agrees with data(x) * x^n. */
  lemma {:induction false} EvalCheck(data: seq<Elem>, n: nat, y: Elem)
    requires n > 0 && Eval(Generator(n), y) == 0
    ensures Eval(Check(data, n), y) == Mul(Eval(data, y), Pow(y, n))
  {
    hide Add, Mul;
    if data == [] {
      EvalZeros(n, y);
      MulZero(0, Pow(y, n));
    } else {
      var m := |data| - 1;
      var e, yn := Eval(data[..m], y), Pow(y, n);
      EvalCheck(data[..m], n, y);
      EvalStep(Check(data[..m], n), data[m], y);
      MulLinearLeft(Mul(e, y), data[m], yn);
      MulAssoc(e, yn, y);
      MulAssoc(e, y, yn);
      MulComm(yn, y);
    }
  }

  /** Data followed by its error-correction codewords is a word of the code. */
  lemma CheckMakesCodeword(data: seq<Elem>, n: nat)
    requires n > 0
    ensures IsCodeword(data + Check(data, n), n)
  {
    forall j: nat | j < n
      ensures Eval(data + Check(data, n), Power(j)) == 0
    {
      hide Add, Mul, Eval, Power;
      GeneratorRoots(n, j);
      EvalConcat(data, Check(data, n), Power(j));
      EvalCheck(data, n, Power(j));
      AddZero(Eval(Check(data, n), Power(j)));
    }
  }
}
