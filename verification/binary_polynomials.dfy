/**
 * Polynomials over GF(2), written as numbers: bit i is the coefficient of x^i.
 * Addition is `Xor`; `Clmul` is the product.
 */
module BinaryPolynomials {
  import opened Bitwise

  /** Carry-less product. */
  function Clmul(a: nat, b: nat): nat {
    if a == 0 then 0
    else Xor(if a % 2 == 1 then b else 0, 2 * Clmul(a / 2, b))
  }

  /** One more than the degree; 0 for the zero polynomial. */
  function BitLength(a: nat): nat {
    if a == 0 then 0 else 1 + BitLength(a / 2)
  }

  /** r is the remainder of p on division by g. */
  ghost predicate IsRemainder(p: nat, g: nat, r: nat) {
    BitLength(r) < BitLength(g) && exists q: nat :: p == Xor(Clmul(q, g), r)
  }

  lemma {:induction false} BitLengthBounds(a: nat)
    ensures a < Pow2(BitLength(a))
    ensures a != 0 ==> BitLength(a) > 0 && Pow2(BitLength(a) - 1) <= a
  {
    if a != 0 {
      BitLengthBounds(a / 2);
    }
  }

  lemma {:induction false} Pow2Monotone(m: nat, n: nat)
    requires m <= n
    ensures Pow2(m) <= Pow2(n)
  {
    if m != n {
      Pow2Monotone(m, n - 1);
    }
  }

  lemma {:induction false} Pow2Add(m: nat, n: nat)
    ensures Pow2(m + n) == Pow2(m) * Pow2(n)
  {
    if m != 0 {
      Pow2Add(m - 1, n);
    }
  }

  lemma Pow2Values()
    ensures Pow2(8) == 0x100 && Pow2(10) == 0x400 && Pow2(12) == 0x1000 && Pow2(15) == 0x8000
    ensures Pow2(18) == 0x4_0000 && Pow2(31) == 0x8000_0000
  {
    assert Pow2(3) == 8 && Pow2(4) == 16;
    hide *;
    Pow2Add(4, 4);
    Pow2Add(4, 3);
    Pow2Add(7, 3);
    Pow2Add(8, 4);
    Pow2Add(8, 7);
    Pow2Add(15, 3);
    Pow2Add(12, 4);
    Pow2Add(16, 15);
  }

  /** Bit length is determined by the powers of two around a number. */
  lemma BitLengthBelow(a: nat, n: nat)
    ensures BitLength(a) <= n <==> a < Pow2(n)
  {
    assert BitLength(0) == 0;
    hide *;
    BitLengthBounds(a);
    if BitLength(a) <= n {
      Pow2Monotone(BitLength(a), n);
    } else {
      Pow2Monotone(n, BitLength(a) - 1);
    }
  }

  lemma {:induction false} ClmulLinear(a: nat, b: nat, c: nat)
    ensures Clmul(Xor(a, b), c) == Xor(Clmul(a, c), Clmul(b, c))
  {
    if a == 0 || b == 0 {
      assert Clmul(0, c) == 0 && Xor(Clmul(a, c), 0) == Clmul(a, c) && Xor(0, Clmul(b, c)) == Clmul(b, c);
    } else {
      ClmulLinear(a / 2, b / 2, c);
      ClmulUnfold(a, c);
      ClmulUnfold(b, c);
      ClmulUnfold(Xor(a, b), c);
      assert Xor(c, 0) == c && Xor(0, c) == c && Xor(0, 0) == 0;
      hide *;
      XorUnfold(a, b);
      var x, y := if a % 2 == 1 then c else 0, if b % 2 == 1 then c else 0;
      XorDouble(Clmul(a / 2, c), Clmul(b / 2, c));
      XorSwap(x, y, 2 * Clmul(a / 2, c), 2 * Clmul(b / 2, c));
      XorSelf(c);
    }
  }

  lemma ClmulUnfold(a: nat, b: nat)
    ensures Clmul(a, b) == Xor(if a % 2 == 1 then b else 0, 2 * Clmul(a / 2, b))
  {}

  lemma ClmulOne(b: nat)
    ensures Clmul(Pow2(0), b) == b * Pow2(0)
  {
    ClmulUnfold(1, b);
    assert Clmul(0, b) == 0 && Xor(b, 0) == b;
  }

  lemma ClmulDouble(n: nat, b: nat)
    requires n > 0
    ensures Pow2(n) == 2 * Pow2(n - 1) && Clmul(Pow2(n), b) == 2 * Clmul(Pow2(n - 1), b)
  {
    hide Clmul;
    ClmulUnfold(Pow2(n), b);
    var p, c := Pow2(n - 1), Clmul(Pow2(n - 1), b);
    assert Pow2(n) / 2 == p && Pow2(n) % 2 == 0 && Xor(0, 2 * c) == 2 * c;
  }

  lemma {:induction false} ClmulPow2(n: nat, b: nat)
    ensures Clmul(Pow2(n), b) == b * Pow2(n)
  {
    if n == 0 {
      ClmulOne(b);
    } else {
      hide *;
      ClmulPow2(n - 1, b);
      ClmulDouble(n, b);
      var p := Pow2(n - 1);
      assert 2 * p / 2 == p && 2 * p % 2 == 0;
      assert 2 * (b * p) == b * (2 * p);
    }
  }

  /** Degrees add: the product of nonzero polynomials is at least as long as either factor. */
  lemma {:induction false} ClmulLength(a: nat, b: nat, m: nat, n: nat)
    requires Pow2(m) <= a < 2 * Pow2(m) && Pow2(n) <= b < 2 * Pow2(n)
    ensures Pow2(m + n) <= Clmul(a, b) < 2 * Pow2(m + n)
  {
    ClmulUnfold(a, b);
    assert Clmul(0, b) == 0 && Xor(b, 0) == b;
    if m == 0 {
      assert a == 1;
    } else {
      assert Pow2(m) == 2 * Pow2(m - 1) && Pow2(m + n) == 2 * Pow2(m - 1 + n);
      var c := Clmul(a / 2, b);
      hide *;
      ClmulLength(a / 2, b, m - 1, n);
      Pow2Monotone(n, m - 1 + n);
      XorComm(if a % 2 == 1 then b else 0, 2 * c);
      XorTopLow(2 * c, if a % 2 == 1 then b else 0, m + n);
    }
  }

  lemma MultiplesAreLong(g: nat, u: nat, n: nat)
    requires Pow2(n) <= g < 2 * Pow2(n) && Clmul(u, g) < Pow2(n)
    ensures u == 0
  {
    hide *;
    if u != 0 {
      BitLengthBounds(u);
      var m := BitLength(u) - 1;
      Pow2Next(m);
      ClmulLength(u, g, m, n);
      Pow2Monotone(n, m + n);
    }
  }

  lemma QuotientsAgree(g: nat, q: nat, r: nat, t: nat, s: nat, n: nat)
    requires Xor(Clmul(q, g), r) == Xor(Clmul(t, g), s)
    requires Pow2(n) <= g < 2 * Pow2(n) && r < Pow2(n) && s < Pow2(n)
    ensures r == s
  {
    assert Clmul(0, g) == 0;
    hide *;
    var u := Xor(q, t);
    ClmulLinear(q, t, g);
    XorSwap(Clmul(q, g), r, Clmul(t, g), s);
    XorSelf(Xor(Clmul(q, g), r));
    XorZero(Clmul(u, g), Xor(r, s));
    XorBound(r, s, n);
    MultiplesAreLong(g, u, n);
    XorZero(r, s);
  }

  lemma Pow2Next(m: nat)
    ensures Pow2(m + 1) == 2 * Pow2(m)
  {}

  /** Division with remainder has at most one answer. */
  lemma RemainderUnique(p: nat, g: nat, r: nat, s: nat)
    requires IsRemainder(p, g, r) && IsRemainder(p, g, s)
    ensures r == s
  {
    var q: nat :| p == Xor(Clmul(q, g), r);
    var t: nat :| p == Xor(Clmul(t, g), s);
    var n := BitLength(g) - 1;
    hide Clmul, Xor, Pow2, BitLength;
    BitLengthBounds(g);
    Pow2Next(n);
    BitLengthBelow(r, n);
    BitLengthBelow(s, n);
    QuotientsAgree(g, q, r, t, s, n);
  }

  // --- Division -----------------------------------------------------------------------

  /** What one round of the division loop adds to the dividend: the divisor, aligned with its leading bit. */
  function Aligned(p: nat, g: nat): nat
    requires BitLength(p) >= BitLength(g)
  {
    g * Pow2(BitLength(p) - BitLength(g))
  }

  lemma AlignedShrinks(p: nat, g: nat)
    requires g != 0 && BitLength(p) >= BitLength(g)
    ensures BitLength(Xor(p, Aligned(p, g))) < BitLength(p)
    ensures BitLength(Aligned(p, g)) == BitLength(p)
  {
    var s, n := BitLength(p) - BitLength(g), BitLength(p) - 1;
    var a := Aligned(p, g);
    assert Pow2(BitLength(g)) == 2 * Pow2(BitLength(g) - 1) && Pow2(n + 1) == 2 * Pow2(n);
    assert a == g * Pow2(s);
    hide *;
    BitLengthBounds(p);
    BitLengthBounds(g);
    Pow2Add(BitLength(g) - 1, s);
    assert Pow2(n) <= a < 2 * Pow2(n) by {
      ScaleBounds(Pow2(BitLength(g) - 1), g, Pow2(s));
    }
    XorTop(p, a, n);
    BitLengthBelow(Xor(p, a), n);
    BitLengthBelow(a, n);
    BitLengthBelow(a, n + 1);
  }

  lemma ScaleBounds(low: nat, g: nat, factor: nat)
    requires low <= g < 2 * low && factor > 0
    ensures low * factor <= g * factor < 2 * (low * factor)
  {
    assert g * factor - low * factor == (g - low) * factor;
    assert 2 * (low * factor) - g * factor == (2 * low - g) * factor;
  }

  /** Long division, keeping only the remainder. */
  function Remainder(p: nat, g: nat): nat
    requires g != 0
    decreases BitLength(p)
  {
    if BitLength(p) < BitLength(g) then p
    else
      AlignedShrinks(p, g);
      Remainder(Xor(p, Aligned(p, g)), g)
  }

  lemma {:induction false} RemainderIsRemainder(p: nat, g: nat)
    requires g != 0
    ensures IsRemainder(p, g, Remainder(p, g))
    decreases BitLength(p)
  {
    if BitLength(p) < BitLength(g) {
      assert p == Xor(Clmul(0, g), p);
    } else {
      var s, a := BitLength(p) - BitLength(g), Aligned(p, g);
      AlignedShrinks(p, g);
      RemainderIsRemainder(Xor(p, a), g);
      var r := Remainder(p, g);
      assert r == Remainder(Xor(p, a), g);
      var q: nat :| Xor(p, a) == Xor(Clmul(q, g), r);
      assert a == g * Pow2(s);
      assert p == Xor(Clmul(Xor(Pow2(s), q), g), r) by {
        hide *;
        ClmulPow2(s, g);
        ClmulLinear(Pow2(s), q, g);
        XorComm(p, a);
        XorCancel(a, p);
        XorAssoc(a, Clmul(q, g), r);
      }
    }
  }

  /** Dividend plus remainder is a multiple of the divisor. */
  lemma CodewordIsMultiple(p: nat, g: nat)
    requires g != 0
    ensures exists q: nat :: Xor(p, Remainder(p, g)) == Clmul(q, g)
  {
    RemainderIsRemainder(p, g);
    var r := Remainder(p, g);
    var q: nat :| p == Xor(Clmul(q, g), r);
    XorCancel(Clmul(q, g), r);
  }
}
