/** The table-driven loops that compute error-correction codewords in place. */
module ReedSolomonEncoder {
  import opened Wrappers
  import opened Bitwise
  import opened GF256
  import opened ReedSolomon

  /** A table was read outside its bounds. */
  datatype RangeError = RangeError

  lemma AddComm(a: Elem, b: Elem)
    ensures Add(a, b) == Add(b, a)
  {
    XorComm(a, b);
  }

  /** Coefficient t of the product of p and x + c, when only the first `done` coefficients of p have been used. */
  function PartialProduct(p: seq<Elem>, c: Elem, done: nat, t: nat): Elem
    requires done <= |p| && t <= |p|
  {
    Add(if t < done then p[t] else 0, if 0 < t <= done then Mul(p[t - 1], c) else 0)
  }

  /** Multiplies poly by x + c, term by term. */
  method TimesRootLoop(tables: Tables, poly: array<Elem>, c: Elem) returns (next: array<Elem>)
    requires tables.Valid()
    ensures fresh(next) && next[..] == TimesRoot(poly[..], c)
  {
    hide Add, Mul;
    var n := poly.Length;
    next := new Elem[n + 1](_ => 0);
    AddZero(0);
    for term := 0 to n
      invariant forall t | 0 <= t <= n :: next[t] == PartialProduct(poly[..], c, term, t)
    {
      var product := tables.Multiply(poly[term], c);
      AddComm(poly[term], if term > 0 then Mul(poly[term - 1], c) else 0);
      AddZero(if term > 0 then Mul(poly[term - 1], c) else 0);
      AddZero(poly[term]);
      AddZero(product);
      next[term] := Add(next[term], poly[term]);
      next[term + 1] := Add(next[term + 1], product);
    }
  }

  method GeneratorPolynomial(tables: Tables, degree: nat) returns (r: Result<array<Elem>, RangeError>)
    requires tables.Valid()
    ensures r.Success? <==> degree <= 512
    ensures r.Success? ==> fresh(r.value) && r.value[..] == Generator(degree)
  {
    hide Add, Mul, TimesRoot;
    var poly := new Elem[1](_ => 1);
    assert poly[..] == [1];
    for index := 0 to degree
      invariant index <= 512
      invariant fresh(poly) && poly[..] == Generator(index)
    {
      if index >= tables.exp.Length {
        return Failure(RangeError);
      }
      poly := TimesRootLoop(tables, poly, tables.exp[index]);
    }
    return Success(poly);
  }

  /** Shifts one data byte into the remainder register. */
  method ShiftIn(tables: Tables, generator: array<Elem>, remainder: array<Elem>, byte: Elem)
    requires tables.Valid()
    requires remainder.Length > 0 && generator[..] == Generator(remainder.Length)
    requires remainder != generator && remainder != tables.exp && remainder != tables.log
    modifies remainder
    ensures remainder[..] == Step(old(remainder[..]), byte)
  {
    hide Add, Mul, Generator;
    var n := remainder.Length;
    ghost var before := remainder[..];
    ghost var tail := before[1..] + [0];
    ghost var g := generator[..];
    var factor := Add(byte, remainder[0]);
    forall i | 0 <= i < n - 1 {
      remainder[i] := remainder[i + 1];
    }
    remainder[n - 1] := 0;
    assert remainder[..] == tail;
    if factor != 0 {
      for index := 0 to n
        invariant forall k | 0 <= k < index :: remainder[k] == Add(tail[k], Mul(g[k + 1], factor))
        invariant forall k | index <= k < n :: remainder[k] == tail[k]
      {
        remainder[index] := Add(remainder[index], tables.Multiply(generator[index + 1], factor));
      }
    } else {
      forall k | 0 <= k < n
        ensures Add(tail[k], Mul(g[k + 1], factor)) == tail[k]
      {
        MulZero(g[k + 1], 0);
        AddZero(tail[k]);
      }
    }
    assert remainder[..] == Step(before, byte);
  }

  /**
   * The error-correction codewords of a block: the only ones that complete it to a word of the code
   * whose polynomial vanishes at the first ecLength powers of the primitive element.
   */
  method ErrorCorrection(tables: Tables, data: array<Elem>, ecLength: nat)
    returns (r: Result<array<Elem>, RangeError>)
    requires tables.Valid()
    ensures r.Success? <==> ecLength <= 512 && (ecLength > 0 || data.Length == 0)
    ensures r.Success? ==> fresh(r.value) && r.value.Length == ecLength
    ensures r.Success? && ecLength > 0 ==> r.value[..] == Check(data[..], ecLength)
    ensures r.Success? && ecLength > 0 ==> IsCodeword(data[..] + r.value[..], ecLength)
  {
    hide Generator, Step, Power, Mul, IsCodeword;
    var generated := GeneratorPolynomial(tables, ecLength);
    if generated.Failure? {
      return Failure(RangeError);
    }
    var generator := generated.value;
    var remainder := new Elem[ecLength](_ => 0);
    assert remainder[..] == Zeros(ecLength);
    for k := 0 to data.Length
      invariant k > 0 ==> ecLength > 0
      invariant tables.Valid() && generator[..] == Generator(ecLength)
      invariant ecLength > 0 ==> remainder[..] == Check(data[..k], ecLength)
    {
      if ecLength == 0 {
        return Failure(RangeError);
      }
      ShiftIn(tables, generator, remainder, data[k]);
      assert data[..k + 1][..k] == data[..k];
    }
    assert data[..data.Length] == data[..];
    if ecLength > 0 {
      CheckMakesCodeword(data[..], ecLength);
    }
    return Success(remainder);
  }
}
