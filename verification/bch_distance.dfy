/** How far apart the words of the two BCH codes are: what makes format and version information readable from a damaged picture. */
module BchDistance {
  import opened Bitwise
  import opened BinaryPolynomials
  import opened Bch
  import opened BitStream

  function One(b: bool): nat {
    if b then 1 else 0
  }

  /** The number of places among the low n bits at which two words differ. */
  function Differences(a: nat, b: nat, n: nat): nat {
    if n == 0 then 0 else Differences(a, b, n - 1) + One(BitAt(a, n - 1) != BitAt(b, n - 1))
  }

  // --- Bits of sums and products -------------------------------------------------------

  lemma {:induction false} ShiftXor(a: nat, b: nat, n: nat)
    ensures ShiftRight(Xor(a, b), n) == Xor(ShiftRight(a, n), ShiftRight(b, n))
  {
    hide Xor;
    if n != 0 {
      XorUnfold(a, b);
      ShiftXor(a / 2, b / 2, n - 1);
    }
  }

  lemma XorAt(a: nat, b: nat, i: nat)
    requires a < 0x8000_0000 && b < 0x8000_0000 && i < 32
    ensures Xor(a, b) < 0x8000_0000
    ensures BitAt(Xor(a, b), i) <==> BitAt(a, i) != BitAt(b, i)
  {
    hide Xor, ShiftRight;
    Pow2Values();
    XorBound(a, b, 31);
    ShiftXor(a, b, i);
    XorUnfold(ShiftRight(a, i), ShiftRight(b, i));
  }

  lemma SmallAt(a: nat, i: nat)
    requires a < 0x8000_0000 && i < 32
    ensures BitAt(a, i) <==> ShiftRight(a, i) % 2 == 1
  {
    hide ShiftRight;
    assert a % 0x1_0000_0000 == a && i % 32 == i;
  }

  lemma DoubleAt(a: nat, i: nat)
    requires a < 0x4000_0000 && i < 32
    ensures BitAt(2 * a, i) <==> i > 0 && BitAt(a, i - 1)
  {
    hide BitAt;
    SmallAt(2 * a, i);
    if i > 0 {
      SmallAt(a, i - 1);
    }
  }

  lemma HalfAt(a: nat, i: nat)
    requires a < 0x8000_0000 && i < 32
    ensures BitAt(a, i) <==> if i == 0 then a % 2 == 1 else BitAt(a / 2, i - 1)
  {
    hide BitAt;
    SmallAt(a, i);
    if i > 0 {
      SmallAt(a / 2, i - 1);
    }
  }

  lemma {:induction false} SameDifferences(a: nat, b: nat, c: nat, d: nat, n: nat)
    requires forall i: nat | i < n :: (BitAt(a, i) != BitAt(b, i)) == (BitAt(c, i) != BitAt(d, i))
    ensures Differences(a, b, n) == Differences(c, d, n)
  {
    hide BitAt;
    if n != 0 {
      SameDifferences(a, b, c, d, n - 1);
    }
  }

  /** Two words differ where their sum has ones. */
  lemma DifferencesOfSum(a: nat, b: nat, n: nat)
    requires a < 0x8000_0000 && b < 0x8000_0000 && n <= 31
    ensures Differences(a, b, n) == Differences(Xor(a, b), 0, n)
  {
    hide BitAt, Xor;
    forall i: nat | i < n
      ensures (BitAt(a, i) != BitAt(b, i)) == (BitAt(Xor(a, b), i) != BitAt(0, i))
    {
      XorAt(a, b, i);
      NoBits(i);
    }
    SameDifferences(a, b, Xor(a, b), 0, n);
  }

  lemma {:induction false} ShiftNothing(n: nat)
    ensures ShiftRight(0, n) == 0
  {
    if n != 0 {
      ShiftNothing(n - 1);
    }
  }

  lemma NoBits(i: nat)
    ensures !BitAt(0, i)
  {
    ShiftNothing(i % 32);
  }

  /** One step of a product: the generator where the lowest bit is set, and the rest one place up. */
  lemma ProductAt(q: nat, g: nat, i: nat)
    requires q < 0x100 && g < 0x8000 && i < 32
    ensures Clmul(q, g) < 0x4000_0000 && Clmul(q / 2, g) < 0x4000_0000
    ensures BitAt(Clmul(q, g), i) <==> (q % 2 == 1 && BitAt(g, i)) != (i > 0 && BitAt(Clmul(q / 2, g), i - 1))
  {
    hide BitAt, Xor, Clmul;
    ProductBound(q, g);
    ProductBound(q / 2, g);
    ClmulUnfold(q, g);
    XorAt(if q % 2 == 1 then g else 0, 2 * Clmul(q / 2, g), i);
    DoubleAt(Clmul(q / 2, g), i);
    NoBits(i);
  }

  lemma {:induction false} ProductBelow(q: nat, g: nat, n: nat)
    requires q < Pow2(n) && g < 0x8000
    ensures Clmul(q, g) < 0x8000 * Pow2(n)
    decreases n
  {
    if n == 0 {
      assert Clmul(0, g) == 0;
    } else {
      hide Xor, Clmul;
      ProductBelow(q / 2, g, n - 1);
      ClmulUnfold(q, g);
      Pow2Values();
      Pow2Add(15, n);
      var x := if q % 2 == 1 then g else 0;
      assert x < Pow2(15 + n);
      XorBound(x, 2 * Clmul(q / 2, g), 15 + n);
    }
  }

  lemma ProductBound(q: nat, g: nat)
    requires q < 0x100 && g < 0x8000
    ensures Clmul(q, g) < 0x4000_0000
  {
    Pow2Values();
    ProductBelow(q, g, 8);
  }

  // --- The two generators --------------------------------------------------------------

  /** x^10 + x^8 + x^5 + x^4 + x^2 + x + 1. */
  predicate FormatPower(i: int) {
    i == 0 || i == 1 || i == 2 || i == 4 || i == 5 || i == 8 || i == 10
  }

  /** x^12 + x^11 + x^10 + x^9 + x^8 + x^5 + x^2 + 1. */
  predicate VersionPower(i: int) {
    i == 0 || i == 2 || i == 5 || i == 8 || i == 9 || i == 10 || i == 11 || i == 12
  }

  lemma Halved(a: nat, i: nat, k: nat)
    requires a < 0x8000_0000 && i < 32
    ensures i >= k ==> (BitAt(a, i - k) <==> if i == k then a % 2 == 1 else BitAt(a / 2, i - k - 1))
    ensures i >= k && a == 0 ==> !BitAt(a, i - k)
  {
    hide BitAt;
    if i >= k {
      HalfAt(a, i - k);
      NoBits(i - k);
    }
  }

  /** The powers of x in the generator of the format code. */
  lemma FormatGeneratorBits(i: nat)
    requires i < 15
    ensures BitAt(FORMAT_GENERATOR, i) <==> FormatPower(i)
  {
    hide BitAt;
    Halved(0x537, i, 0);
    Halved(0x29b, i, 1);
    Halved(0x14d, i, 2);
    Halved(0xa6, i, 3);
    Halved(0x53, i, 4);
    Halved(0x29, i, 5);
    Halved(0x14, i, 6);
    Halved(0xa, i, 7);
    Halved(0x5, i, 8);
    Halved(0x2, i, 9);
    Halved(0x1, i, 10);
    Halved(0, i, 11);
  }

  /** The powers of x in the generator of the version code. */
  lemma VersionGeneratorBits(i: nat)
    requires i < 18
    ensures BitAt(VERSION_GENERATOR, i) <==> VersionPower(i)
  {
    hide BitAt;
    Halved(0x1f25, i, 0);
    Halved(0xf92, i, 1);
    Halved(0x7c9, i, 2);
    Halved(0x3e4, i, 3);
    Halved(0x1f2, i, 4);
    Halved(0xf9, i, 5);
    Halved(0x7c, i, 6);
    Halved(0x3e, i, 7);
    Halved(0x1f, i, 8);
    Halved(0xf, i, 9);
    Halved(0x7, i, 10);
    Halved(0x3, i, 11);
    Halved(0x1, i, 12);
    Halved(0, i, 13);
  }

  // --- The weight of a product ---------------------------------------------------------

  /** The lowest six bits of a factor. */
  datatype Factor = Factor(a: bool, b: bool, c: bool, d: bool, e: bool, f: bool)

  function FactorOf(q: nat): Factor {
    Factor(q % 2 == 1, q / 2 % 2 == 1, q / 4 % 2 == 1, q / 8 % 2 == 1, q / 16 % 2 == 1, q / 32 % 2 == 1)
  }

  predicate FormatProduct(x: Factor, i: int) {
    (x.a && FormatPower(i)) != ((x.b && FormatPower(i - 1)) != ((x.c && FormatPower(i - 2)) != ((x.d && FormatPower(i - 3)) != (x.e && FormatPower(i - 4)))))
  }

  predicate VersionProduct(x: Factor, i: int) {
    (x.a && VersionPower(i)) != ((x.b && VersionPower(i - 1)) != ((x.c && VersionPower(i - 2)) !=
      ((x.d && VersionPower(i - 3)) != ((x.e && VersionPower(i - 4)) != (x.f && VersionPower(i - 5))))))
  }

  /** Every factor but zero leaves at least seven ones. */
  lemma FormatWeight(x: Factor)
    requires x.a || x.b || x.c || x.d || x.e
    ensures One(FormatProduct(x, 0)) + One(FormatProduct(x, 1)) + One(FormatProduct(x, 2)) + One(FormatProduct(x, 3)) + One(FormatProduct(x, 4)) + One(FormatProduct(x, 5)) + One(FormatProduct(x, 6)) + One(FormatProduct(x, 7)) + One(FormatProduct(x, 8)) + One(FormatProduct(x, 9)) + One(FormatProduct(x, 10)) + One(FormatProduct(x, 11)) + One(FormatProduct(x, 12)) + One(FormatProduct(x, 13)) + One(FormatProduct(x, 14)) >= 7
  {
  }

  /** Every factor but zero leaves at least eight ones. */
  lemma VersionWeight(x: Factor)
    requires x.a || x.b || x.c || x.d || x.e || x.f
    ensures One(VersionProduct(x, 0)) + One(VersionProduct(x, 1)) + One(VersionProduct(x, 2)) + One(VersionProduct(x, 3)) + One(VersionProduct(x, 4)) + One(VersionProduct(x, 5)) + One(VersionProduct(x, 6)) + One(VersionProduct(x, 7)) + One(VersionProduct(x, 8)) + One(VersionProduct(x, 9)) + One(VersionProduct(x, 10)) + One(VersionProduct(x, 11)) + One(VersionProduct(x, 12)) + One(VersionProduct(x, 13)) + One(VersionProduct(x, 14)) + One(VersionProduct(x, 15)) + One(VersionProduct(x, 16)) + One(VersionProduct(x, 17)) >= 8
  {
  }

  lemma NoProduct(g: nat, i: nat)
    ensures Clmul(0, g) == 0 && !BitAt(Clmul(0, g), i)
  {
    hide BitAt;
    NoBits(i);
  }

  lemma Quotients(q: nat)
    ensures q / 2 / 2 == q / 4 && q / 4 / 2 == q / 8 && q / 8 / 2 == q / 16 && q / 16 / 2 == q / 32 && q / 32 / 2 == q / 64
  {
  }

  /** The k-th step of a product. */
  lemma ProductStep(q: nat, g: nat, i: nat, k: nat)
    requires q < 0x100 && g < 0x8000 && i < 32
    ensures i >= k ==> (BitAt(Clmul(q, g), i - k) <==> (q % 2 == 1 && BitAt(g, i - k)) != (i - k > 0 && BitAt(Clmul(q / 2, g), i - k - 1)))
  {
    hide BitAt, Clmul;
    if i >= k {
      ProductAt(q, g, i - k);
    }
  }

  lemma FormatStep(q: nat, i: nat, k: nat)
    requires q < 0x100 && i < 15
    ensures i >= k ==> (BitAt(Clmul(q, FORMAT_GENERATOR), i - k) <==>
                          (q % 2 == 1 && FormatPower(i - k)) != (i - k > 0 && BitAt(Clmul(q / 2, FORMAT_GENERATOR), i - k - 1)))
  {
    hide BitAt, Clmul, FormatPower;
    ProductStep(q, FORMAT_GENERATOR, i, k);
    if i >= k {
      FormatGeneratorBits(i - k);
    }
  }

  lemma VersionStep(q: nat, i: nat, k: nat)
    requires q < 0x100 && i < 18
    ensures i >= k ==> (BitAt(Clmul(q, VERSION_GENERATOR), i - k) <==>
                          (q % 2 == 1 && VersionPower(i - k)) != (i - k > 0 && BitAt(Clmul(q / 2, VERSION_GENERATOR), i - k - 1)))
  {
    hide BitAt, Clmul, VersionPower;
    ProductStep(q, VERSION_GENERATOR, i, k);
    if i >= k {
      VersionGeneratorBits(i - k);
    }
  }

  lemma NoNegativePowers(i: int)
    ensures i < 0 ==> !FormatPower(i) && !VersionPower(i)
  {
  }

  lemma FactorIs(q: nat)
    ensures FactorOf(q) == Factor(q % 2 == 1, q / 2 % 2 == 1, q / 4 % 2 == 1, q / 8 % 2 == 1, q / 16 % 2 == 1, q / 32 % 2 == 1)
  {
  }

  lemma FormatProductAt(q: nat, i: nat)
    requires q < 32 && i < 15
    ensures BitAt(Clmul(q, FORMAT_GENERATOR), i) <==> FormatProduct(FactorOf(q), i)
  {
    hide BitAt, Clmul, FormatPower, FactorOf;
    FactorIs(q);
    Quotients(q);
    FormatStep(q, i, 0);
    FormatStep(q / 2, i, 1);
    FormatStep(q / 4, i, 2);
    FormatStep(q / 8, i, 3);
    FormatStep(q / 16, i, 4);
    assert q / 32 == 0;
    if i >= 5 {
      NoProduct(FORMAT_GENERATOR, i - 5);
    }
    NoNegativePowers(i - 1);
    NoNegativePowers(i - 2);
    NoNegativePowers(i - 3);
    NoNegativePowers(i - 4);
  }

  lemma VersionProductAt(q: nat, i: nat)
    requires q < 64 && i < 18
    ensures BitAt(Clmul(q, VERSION_GENERATOR), i) <==> VersionProduct(FactorOf(q), i)
  {
    hide BitAt, Clmul, VersionPower, FactorOf;
    FactorIs(q);
    Quotients(q);
    VersionStep(q, i, 0);
    VersionStep(q / 2, i, 1);
    VersionStep(q / 4, i, 2);
    VersionStep(q / 8, i, 3);
    VersionStep(q / 16, i, 4);
    VersionStep(q / 32, i, 5);
    assert q / 64 == 0;
    if i >= 6 {
      NoProduct(VERSION_GENERATOR, i - 6);
    }
    NoNegativePowers(i - 1);
    NoNegativePowers(i - 2);
    NoNegativePowers(i - 3);
    NoNegativePowers(i - 4);
    NoNegativePowers(i - 5);
  }

  lemma ZeroHalves(q: nat)
    ensures q % 2 == 1 || q / 2 > 0 || q == 0
    ensures q < 2 ==> q / 2 == 0
    ensures q < 64 ==> q / 2 < 32
    ensures q < 32 ==> q / 32 == 0
  {
  }

  lemma SomeBit(q: nat)
    requires 0 < q < 64
    ensures var x := FactorOf(q); x.a || x.b || x.c || x.d || x.e || x.f
    ensures q < 32 ==> !FactorOf(q).f
  {
    Quotients(q);
    ZeroHalves(q);
    ZeroHalves(q / 2);
    ZeroHalves(q / 4);
    ZeroHalves(q / 8);
    ZeroHalves(q / 16);
    ZeroHalves(q / 32);
  }

  lemma OnesUpTo(w: nat, n: nat)
    ensures Differences(w, 0, 0) == 0 && Differences(w, 0, n + 1) == Differences(w, 0, n) + One(BitAt(w, n))
  {
    hide BitAt;
    NoBits(n);
  }

  lemma Ones15(w: nat)
    ensures Differences(w, 0, 15) == One(BitAt(w, 0)) + One(BitAt(w, 1)) + One(BitAt(w, 2)) + One(BitAt(w, 3)) + One(BitAt(w, 4)) + One(BitAt(w, 5)) + One(BitAt(w, 6)) + One(BitAt(w, 7)) + One(BitAt(w, 8)) + One(BitAt(w, 9)) + One(BitAt(w, 10)) + One(BitAt(w, 11)) + One(BitAt(w, 12)) + One(BitAt(w, 13)) + One(BitAt(w, 14))
  {
    hide *;
    OnesUpTo(w, 0);
    OnesUpTo(w, 1);
    OnesUpTo(w, 2);
    OnesUpTo(w, 3);
    OnesUpTo(w, 4);
    OnesUpTo(w, 5);
    OnesUpTo(w, 6);
    OnesUpTo(w, 7);
    OnesUpTo(w, 8);
    OnesUpTo(w, 9);
    OnesUpTo(w, 10);
    OnesUpTo(w, 11);
    OnesUpTo(w, 12);
    OnesUpTo(w, 13);
    OnesUpTo(w, 14);
  }

  lemma Ones18(w: nat)
    ensures Differences(w, 0, 18) == One(BitAt(w, 0)) + One(BitAt(w, 1)) + One(BitAt(w, 2)) + One(BitAt(w, 3)) + One(BitAt(w, 4)) + One(BitAt(w, 5)) + One(BitAt(w, 6)) + One(BitAt(w, 7)) + One(BitAt(w, 8)) + One(BitAt(w, 9)) + One(BitAt(w, 10)) + One(BitAt(w, 11)) + One(BitAt(w, 12)) + One(BitAt(w, 13)) + One(BitAt(w, 14)) + One(BitAt(w, 15)) + One(BitAt(w, 16)) + One(BitAt(w, 17))
  {
    hide *;
    Ones15(w);
    OnesUpTo(w, 15);
    OnesUpTo(w, 16);
    OnesUpTo(w, 17);
  }

  /** A factor whose product has few bits is small itself. */
  lemma FactorSmall(q: nat, g: nat, m: nat, n: nat)
    requires Pow2(n) <= g < 2 * Pow2(n) && Clmul(q, g) < Pow2(m + n)
    ensures q < Pow2(m)
  {
    hide Clmul, Pow2;
    if q >= Pow2(m) {
      TopPower(q, m);
      var k: nat :| m <= k && Pow2(k) <= q < 2 * Pow2(k);
      ClmulLength(q, g, k, n);
      Pow2Monotone(m + n, k + n);
      assert false;
    }
  }

  lemma TopPower(q: nat, m: nat)
    requires q >= Pow2(m)
    ensures exists k: nat :: m <= k && Pow2(k) <= q < 2 * Pow2(k)
    decreases q - Pow2(m)
  {
    if q >= 2 * Pow2(m) {
      assert Pow2(m + 1) == 2 * Pow2(m);
      TopPower(q, m + 1);
    } else {
      assert m <= m && Pow2(m) <= q < 2 * Pow2(m);
    }
  }

  // --- The distances -------------------------------------------------------------------

  lemma FormatProductWeight(s: nat)
    requires 0 < s < 32
    ensures Differences(Clmul(s, FORMAT_GENERATOR), 0, 15) >= 7
  {
    hide *;
    var w := Clmul(s, FORMAT_GENERATOR);
    forall i: nat | i < 15
      ensures One(BitAt(w, i)) == One(FormatProduct(FactorOf(s), i))
    {
      FormatProductAt(s, i);
    }
    SomeBit(s);
    FormatWeight(FactorOf(s));
    Ones15(w);
  }

  lemma VersionProductWeight(s: nat)
    requires 0 < s < 64
    ensures Differences(Clmul(s, VERSION_GENERATOR), 0, 18) >= 8
  {
    hide *;
    var w := Clmul(s, VERSION_GENERATOR);
    forall i: nat | i < 18
      ensures One(BitAt(w, i)) == One(VersionProduct(FactorOf(s), i))
    {
      VersionProductAt(s, i);
    }
    SomeBit(s);
    VersionWeight(FactorOf(s));
    Ones18(w);
  }

  /** The sum of two different codewords is a product with a small factor that is not zero. */
  lemma SumOfCodewords(a: nat, b: nat, g: nat, m: nat, n: nat) returns (s: nat)
    requires Pow2(n) <= g < 2 * Pow2(n) && a != b && a < Pow2(m + n) && b < Pow2(m + n)
    requires (exists q: nat :: a == Clmul(q, g)) && exists q: nat :: b == Clmul(q, g)
    ensures 0 < s < Pow2(m) && Xor(a, b) == Clmul(s, g)
  {
    hide Clmul, Xor, Pow2;
    var q: nat :| a == Clmul(q, g);
    var t: nat :| b == Clmul(t, g);
    s := Xor(q, t);
    ClmulLinear(q, t, g);
    XorBound(a, b, m + n);
    FactorSmall(s, g, m, n);
    XorZero(a, b);
    NoProduct(g, 0);
  }

  lemma MaskingKeepsDifferences(a: nat, b: nat, mask: nat, n: nat)
    requires a < 0x8000_0000 && b < 0x8000_0000 && mask < 0x8000_0000 && n <= 31
    ensures Differences(Xor(a, mask), Xor(b, mask), n) == Differences(a, b, n)
  {
    hide BitAt, Xor;
    forall i: nat | i < n
      ensures (BitAt(Xor(a, mask), i) != BitAt(Xor(b, mask), i)) == (BitAt(a, i) != BitAt(b, i))
    {
      XorAt(a, mask, i);
      XorAt(b, mask, i);
    }
    SameDifferences(Xor(a, mask), Xor(b, mask), a, b, n);
  }

  /** Any two of the 32 format words differ in at least 7 of their 15 bits, so up to 3 wrong ones can be put right. */
  lemma FormatDistance(d: nat, e: nat)
    requires d < 32 && e < 32 && d != e
    ensures Differences(FormatBits(d), FormatBits(e), 15) >= 7
  {
    hide BitAt, Xor, Clmul, Differences, FormatWord, Pow2, BitLength;
    FormatWordCarriesMask(d);
    FormatWordCarriesMask(e);
    FormatWordSmall(d);
    FormatWordSmall(e);
    Pow2Values();
    assert Pow2(5) == 32 by {
      SmallPowers();
    }
    var s := SumOfCodewords(FormatWord(d), FormatWord(e), FORMAT_GENERATOR, 5, 10);
    FormatProductWeight(s);
    DifferencesOfSum(FormatWord(d), FormatWord(e), 15);
    MaskingKeepsDifferences(FormatWord(d), FormatWord(e), FORMAT_MASK, 15);
  }

  lemma SmallPowers()
    ensures Pow2(5) == 32 && Pow2(6) == 64
  {
    assert Pow2(3) == 8;
  }

  lemma FormatWordSmall(d: nat)
    requires d < 32
    ensures FormatWord(d) < 0x8000
  {
    hide FormatWord;
    FormatWordCarriesMask(d);
  }

  lemma {:induction false} DifferencesTriangle(a: nat, b: nat, c: nat, n: nat)
    ensures Differences(a, b, n) <= Differences(c, a, n) + Differences(c, b, n)
  {
    hide BitAt;
    if n != 0 {
      DifferencesTriangle(a, b, c, n - 1);
    }
  }

  /** Whatever three bits of the format information are misread, at most one level and mask fits. */
  lemma FormatCorrects(seen: nat, d: nat, e: nat)
    requires d < 32 && e < 32
    requires Differences(seen, FormatBits(d), 15) <= 3 && Differences(seen, FormatBits(e), 15) <= 3
    ensures d == e
  {
    hide Differences, FormatBits;
    DifferencesTriangle(FormatBits(d), FormatBits(e), seen, 15);
    if d != e {
      FormatDistance(d, e);
    }
  }

  /** Any two of the 64 version words differ in at least 8 of their 18 bits. */
  lemma VersionDistance(v: nat, w: nat)
    requires v < 64 && w < 64 && v != w
    ensures Differences(VersionBits(v), VersionBits(w), 18) >= 8
  {
    hide BitAt, Xor, Clmul, Differences, VersionBits, Pow2, BitLength;
    VersionBitsCarryVersion(v);
    VersionBitsCarryVersion(w);
    Pow2Values();
    SmallPowers();
    var s := SumOfCodewords(VersionBits(v), VersionBits(w), VERSION_GENERATOR, 6, 12);
    VersionProductWeight(s);
    DifferencesOfSum(VersionBits(v), VersionBits(w), 18);
  }

  // --- The words of the standard -------------------------------------------------------

  /** The format information of level M for the eight masks, as table C.1 of ISO/IEC 18004 lists it. */
  const FORMAT_TABLE: seq<string> := [
    "101010000010010",
    "101000100100101",
    "101111001111100",
    "101101101001011",
    "100010111111001",
    "100000011001110",
    "100111110010111",
    "100101010100000"
  ]

  /** The version information of versions 7 to 10, as table D.1 of ISO/IEC 18004 lists it. */
  const VERSION_TABLE: seq<string> := [
    "000111110010010100",
    "001000010110111100",
    "001001101010011001",
    "001010010011010011"
  ]

  /** The ones of the word that format information is masked with. */
  predicate MaskPower(i: int) {
    i == 1 || i == 4 || i == 10 || i == 12 || i == 14
  }

  lemma FormatMaskBits(i: nat)
    requires i < 15
    ensures BitAt(FORMAT_MASK, i) <==> MaskPower(i)
  {
    hide BitAt;
    Halved(0x5412, i, 0);
    Halved(0x2a09, i, 1);
    Halved(0x1504, i, 2);
    Halved(0xa82, i, 3);
    Halved(0x541, i, 4);
    Halved(0x2a0, i, 5);
    Halved(0x150, i, 6);
    Halved(0xa8, i, 7);
    Halved(0x54, i, 8);
    Halved(0x2a, i, 9);
    Halved(0x15, i, 10);
    Halved(0xa, i, 11);
    Halved(0x5, i, 12);
    Halved(0x2, i, 13);
    Halved(0x1, i, 14);
    Halved(0, i, 15);
  }

  lemma {:induction false} ShiftedBelow(a: nat, n: nat, m: nat)
    requires a < Pow2(m)
    ensures Shift(a, n) < Pow2(m + n)
  {
    if n > 0 {
      ShiftedBelow(a, n - 1, m);
    }
  }

  lemma {:induction false} ShiftedAt(a: nat, n: nat, i: nat)
    requires a < 0x8000 && n <= 15 && n + i < 32
    ensures Shift(a, n) < 0x4000_0000 && BitAt(Shift(a, n), n + i) == BitAt(a, i)
    decreases n
  {
    hide BitAt, Pow2;
    Pow2Values();
    ShiftedBelow(a, n, 15);
    Pow2Monotone(15 + n, 30);
    assert Pow2(31) == 2 * Pow2(30) by {
      Pow2Next(30);
    }
    if n > 0 {
      ShiftedAt(a, n - 1, i);
      ShiftedBelow(a, n - 1, 15);
      DoubleAt(Shift(a, n - 1), n + i);
    }
  }

  lemma {:induction false} ShortAt(r: nat, n: nat, i: nat)
    requires r < Pow2(n) && n + i < 31 && r < 0x8000_0000
    ensures !BitAt(r, n + i)
    decreases n
  {
    hide BitAt;
    if n == 0 {
      NoBits(i);
    } else {
      HalfAt(r, n + i);
      ShortAt(r / 2, n - 1, i);
    }
  }

  /** A word carries its data in its top bits. */
  lemma DataAt(data: nat, n: nat, generator: nat, i: nat)
    requires BitLength(generator) == n + 1 && data < 0x8000 && n <= 15 && n + i < 31
    ensures BitAt(Or(data * Pow2(n), Remainder(data * Pow2(n), generator)), n + i) == BitAt(data, i)
  {
    HasBits(generator);
    hide BitAt, Or, Xor, Remainder, BitLength, Clmul;
    var r := Remainder(data * Pow2(n), generator);
    CheckedWord(data, n, generator);
    OrDisjoint(data, r, n);
    ShiftScales(data, n);
    ShiftedAt(data, n, i);
    Pow2Values();
    Pow2Monotone(n, 15);
    XorAt(Shift(data, n), r, n + i);
    ShortAt(r, n, i);
  }

  /** In a product with a factor below 32 the top five bits determine the factor, and so the whole word. */
  lemma FormatSolved(x: Factor, a: bool, b: bool, c: bool)
    requires FormatProduct(x, 10) == a && FormatProduct(x, 11) == b && FormatProduct(x, 12) == c && !FormatProduct(x, 13) && !FormatProduct(x, 14)
    ensures x == Factor(a != c, b, c, false, false, x.f)
  {
  }

  lemma VersionSolved(x: Factor, a: bool, b: bool, c: bool, d: bool)
    requires VersionProduct(x, 12) == a && VersionProduct(x, 13) == b && VersionProduct(x, 14) == c && VersionProduct(x, 15) == d
    requires !VersionProduct(x, 16) && !VersionProduct(x, 17)
    ensures x == Factor(a != b, b != c, c != d, d, false, false)
  {
  }

  lemma ProductBelow32(a: nat) returns (q: nat)
    requires a < 0x8000 && exists q: nat :: a == Clmul(q, FORMAT_GENERATOR)
    ensures q < 32 && a == Clmul(q, FORMAT_GENERATOR)
  {
    hide Clmul;
    q :| a == Clmul(q, FORMAT_GENERATOR);
    Pow2Values();
    SmallPowers();
    FactorSmall(q, FORMAT_GENERATOR, 5, 10);
  }

  lemma ProductBelow64(a: nat) returns (q: nat)
    requires a < 0x4_0000 && exists q: nat :: a == Clmul(q, VERSION_GENERATOR)
    ensures q < 64 && a == Clmul(q, VERSION_GENERATOR)
  {
    hide Clmul;
    q :| a == Clmul(q, VERSION_GENERATOR);
    Pow2Values();
    SmallPowers();
    FactorSmall(q, VERSION_GENERATOR, 6, 12);
  }

  lemma FormatBitsAt(mask: nat, i: nat)
    requires mask < 8 && i < 15
    ensures var x := Factor((mask % 2 == 1) != (mask / 4 % 2 == 1), mask / 2 % 2 == 1, mask / 4 % 2 == 1, false, false, false);
            BitAt(FormatBits(mask), i) <==> FormatProduct(x, i) != MaskPower(i)
  {
    hide BitAt, Xor, Clmul, FormatWord, FormatProduct, FactorOf, Pow2, BitLength, MaskPower;
    FormatWordCarriesMask(mask);
    FormatWordSmall(mask);
    var q := ProductBelow32(FormatWord(mask));
    FormatData(mask, q);
    FactorIs(q);
    ZeroHalves(q);
    FormatProductAt(q, i);
    FormatMaskBits(i);
    XorAt(FormatWord(mask), FORMAT_MASK, i);
  }

  lemma FormatData(mask: nat, q: nat)
    requires mask < 8 && q < 32 && FormatWord(mask) == Clmul(q, FORMAT_GENERATOR)
    ensures FactorOf(q) == Factor((mask % 2 == 1) != (mask / 4 % 2 == 1), mask / 2 % 2 == 1, mask / 4 % 2 == 1, false, false, FactorOf(q).f)
  {
    hide BitAt, Xor, Clmul, FormatProduct, FactorOf, Pow2, BitLength, Remainder, Or;
    GeneratorLengths();
    Pow2Values();
    forall i: nat | 10 <= i < 15
      ensures FormatProduct(FactorOf(q), i) == BitAt(mask, i - 10)
    {
      DataAt(mask, 10, FORMAT_GENERATOR, i - 10);
      FormatProductAt(q, i);
    }
    LowBits(mask);
    FormatSolved(FactorOf(q), mask % 2 == 1, mask / 2 % 2 == 1, mask / 4 % 2 == 1);
  }

  lemma LowBits(a: nat)
    requires a < 16
    ensures BitAt(a, 0) == (a % 2 == 1) && BitAt(a, 1) == (a / 2 % 2 == 1) && BitAt(a, 2) == (a / 4 % 2 == 1) && BitAt(a, 3) == (a / 8 % 2 == 1)
    ensures !BitAt(a, 4) && !BitAt(a, 5) && (a < 8 ==> !BitAt(a, 3))
  {
    hide BitAt;
    Quotients(a);
    HalfAt(a, 0);
    HalfAt(a, 1);
    HalfAt(a / 2, 0);
    HalfAt(a, 2);
    HalfAt(a / 2, 1);
    HalfAt(a / 4, 0);
    HalfAt(a, 3);
    HalfAt(a / 2, 2);
    HalfAt(a / 4, 1);
    HalfAt(a / 8, 0);
    Pow2Values();
    assert a / 16 == 0;
    NoBits(0);
    NoBits(1);
    HalfAt(a, 4);
    HalfAt(a / 2, 3);
    HalfAt(a / 4, 2);
    HalfAt(a / 8, 1);
    HalfAt(a, 5);
    HalfAt(a / 2, 4);
    HalfAt(a / 4, 3);
    HalfAt(a / 8, 2);
  }

  /** The format information is the one of the standard, bit for bit. */
  lemma FormatIsStandard(mask: nat, i: nat)
    requires mask < 8 && i < 15
    ensures |FORMAT_TABLE| == 8 && |FORMAT_TABLE[mask]| == 15
    ensures BitAt(FormatBits(mask), i) <==> FORMAT_TABLE[mask][14 - i] == '1'
  {
    hide BitAt, FormatBits;
    FormatBitsAt(mask, i);
  }

  function VersionFactor(version: nat): Factor {
    var a, b, c, d := version % 2 == 1, version / 2 % 2 == 1, version / 4 % 2 == 1, version / 8 % 2 == 1;
    Factor(a != b, b != c, c != d, d, false, false)
  }

  lemma VersionData(version: nat, q: nat)
    requires version < 16 && q < 64 && VersionBits(version) == Clmul(q, VERSION_GENERATOR)
    ensures FactorOf(q) == VersionFactor(version)
  {
    hide BitAt, Xor, Clmul, VersionProduct, FactorOf, Pow2, BitLength, Remainder, Or;
    GeneratorLengths();
    Pow2Values();
    forall i: nat | 12 <= i < 18
      ensures VersionProduct(FactorOf(q), i) == BitAt(version, i - 12)
    {
      DataAt(version, 12, VERSION_GENERATOR, i - 12);
      VersionProductAt(q, i);
    }
    LowBits(version);
    VersionSolved(FactorOf(q), version % 2 == 1, version / 2 % 2 == 1, version / 4 % 2 == 1, version / 8 % 2 == 1);
  }

  lemma VersionBitsAt(version: nat, i: nat)
    requires version < 16 && i < 18
    ensures BitAt(VersionBits(version), i) <==> VersionProduct(VersionFactor(version), i)
  {
    hide BitAt, Xor, Clmul, VersionBits, VersionProduct, VersionFactor, FactorOf, Pow2, BitLength;
    VersionBitsCarryVersion(version);
    var q := ProductBelow64(VersionBits(version));
    VersionData(version, q);
    VersionProductAt(q, i);
  }

  /** The version information is the one of the standard, bit for bit. */
  lemma VersionIsStandard(version: nat, i: nat)
    requires 7 <= version <= 10 && i < 18
    ensures |VERSION_TABLE| == 4 && |VERSION_TABLE[version - 7]| == 18
    ensures BitAt(VersionBits(version), i) <==> VERSION_TABLE[version - 7][17 - i] == '1'
  {
    hide BitAt, VersionBits;
    VersionBitsAt(version, i);
  }
}
