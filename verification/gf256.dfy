/**
 * The field GF(256) of the Reed-Solomon code: polynomials over GF(2) modulo
 * x^8 + x^4 + x^3 + x^2 + 1, and the exponent and logarithm tables the encoder computes with.
 */
module GF256 {
  import opened Bitwise
  import opened BinaryPolynomials
  import opened Octets

  /** A field element, as the byte whose bits are the polynomial's coefficients. */
  type Elem = Byte

  /** x^8 + x^4 + x^3 + x^2 + 1. */
  const MODULUS: nat := 0x11d

  function Add(a: Elem, b: Elem): Elem {
    assert Pow2(8) == 256;
    XorBound(a, b, 8);
    Xor(a, b)
  }

  /** Multiplication by x. */
  function Double(a: Elem): Elem {
    if a < 128 then 2 * a
    else
      assert Pow2(8) == 256;
      XorTop(2 * a, MODULUS, 8);
      Xor(2 * a, MODULUS)
  }

  function Select(bit: nat, a: Elem): Elem {
    if bit == 1 then a else 0
  }

  /** Multiplication, by Horner's rule on the bits of the first factor. */
  function Mul(a: Elem, b: Elem): Elem {
    if a == 0 then 0
    else Add(Select(a % 2, b), Double(Mul(a / 2, b)))
  }

  lemma MulUnfold(a: Elem, b: Elem)
    ensures Mul(a, b) == Add(Select(a % 2, b), Double(Mul(a / 2, b)))
    ensures Mul(0, b) == 0
  {}

  lemma AddZero(a: Elem)
    ensures Add(a, 0) == a && Add(0, a) == a && Add(a, a) == 0
  {
    XorSelf(a);
  }

  lemma AddSwap(a: Elem, b: Elem, c: Elem, d: Elem)
    ensures Add(Add(a, b), Add(c, d)) == Add(Add(a, c), Add(b, d))
  {
    XorSwap(a, b, c, d);
  }

  lemma DoubleLinear(a: Elem, b: Elem)
    ensures Double(Add(a, b)) == Add(Double(a), Double(b))
  {
    assert Pow2(7) == 128;
    hide Xor;
    var g := MODULUS;
    XorDouble(a, b);
    if a < 128 && b < 128 {
      XorBound(a, b, 7);
    } else if a < 128 {
      XorComm(a, b);
      XorTopLow(b, a, 7);
      XorAssoc(2 * a, 2 * b, g);
    } else if b < 128 {
      XorTopLow(a, b, 7);
      XorAssoc(2 * a, 2 * b, g);
      XorComm(2 * b, g);
      XorAssoc(2 * a, g, 2 * b);
    } else {
      XorTop(a, b, 7);
      XorSwap(2 * a, g, 2 * b, g);
      XorSelf(g);
      XorComm(Xor(2 * a, 2 * b), 0);
      assert Xor(Xor(2 * a, 2 * b), 0) == Xor(2 * a, 2 * b) by { XorCancel(0, Xor(2 * a, 2 * b)); XorZeroRight(Xor(2 * a, 2 * b)); }
    }
  }

  lemma XorZeroRight(a: nat)
    ensures Xor(a, 0) == a
  {}

  lemma {:induction false} MulLinearRight(a: Elem, b: Elem, c: Elem)
    ensures Mul(a, Add(b, c)) == Add(Mul(a, b), Mul(a, c))
  {
    hide Add, Double, Mul;
    MulUnfold(a, b);
    MulUnfold(a, c);
    MulUnfold(a, Add(b, c));
    AddZero(0);
    if a != 0 {
      MulLinearRight(a / 2, b, c);
      DoubleLinear(Mul(a / 2, b), Mul(a / 2, c));
      AddSwap(Select(a % 2, b), Select(a % 2, c), Double(Mul(a / 2, b)), Double(Mul(a / 2, c)));
    }
  }

  lemma {:induction false} MulLinearLeft(a: Elem, b: Elem, c: Elem)
    ensures Mul(Add(a, b), c) == Add(Mul(a, c), Mul(b, c))
  {
    hide Xor, Double, Mul;
    MulUnfold(a, c);
    MulUnfold(b, c);
    AddZero(a);
    AddZero(b);
    AddZero(Mul(a, c));
    AddZero(Mul(b, c));
    AddZero(c);
    AddZero(0);
    if a != 0 && b != 0 {
      MulLinearLeft(a / 2, b / 2, c);
      XorUnfold(a, b);
      MulUnfold(Add(a, b), c);
      DoubleLinear(Mul(a / 2, c), Mul(b / 2, c));
      AddSwap(Select(a % 2, c), Select(b % 2, c), Double(Mul(a / 2, c)), Double(Mul(b / 2, c)));
    }
  }

  lemma {:induction false} MulDoubleRight(a: Elem, b: Elem)
    ensures Mul(a, Double(b)) == Double(Mul(a, b))
  {
    assert Double(0) == 0;
    hide Add, Double, Mul;
    MulUnfold(a, b);
    MulUnfold(a, Double(b));
    if a != 0 {
      MulDoubleRight(a / 2, b);
      DoubleLinear(Select(a % 2, b), Double(Mul(a / 2, b)));
    }
  }

  /** A byte is its low bit plus twice the rest. */
  lemma Halves(a: Elem)
    ensures Add(a % 2, Double(a / 2)) == a
  {
    hide Xor;
    XorUnfold(a % 2, 2 * (a / 2));
    XorZeroRight(a / 2);
    XorComm(a / 2, 0);
  }

  lemma {:induction false} MulOne(a: Elem)
    ensures Mul(a, 1) == a && Mul(1, a) == a && Mul(a, 0) == 0
  {
    assert Double(0) == 0 && Mul(0, a) == 0;
    hide Add, Double, Mul;
    MulUnfold(a, 1);
    MulUnfold(a, 0);
    MulUnfold(1, a);
    AddZero(a);
    AddZero(0);
    if a != 0 {
      MulOne(a / 2);
      Halves(a);
    }
  }

  /** The recursion of `Mul` on its second argument. */
  lemma MulUnfoldRight(a: Elem, b: Elem)
    ensures Mul(a, b) == Add(Select(b % 2, a), Double(Mul(a, b / 2)))
  {
    hide Add, Double, Mul;
    Halves(b);
    MulLinearRight(a, b % 2, Double(b / 2));
    MulDoubleRight(a, b / 2);
    MulOne(a);
  }

  lemma {:induction false} MulComm(a: Elem, b: Elem)
    ensures Mul(a, b) == Mul(b, a)
  {
    hide Add, Double, Mul;
    MulOne(b);
    MulUnfold(a, b);
    if a != 0 {
      MulComm(a / 2, b);
      MulUnfoldRight(b, a);
    }
  }

  lemma {:induction false} MulAssoc(a: Elem, b: Elem, c: Elem)
    ensures Mul(Mul(a, b), c) == Mul(a, Mul(b, c))
  {
    hide Add, Double, Mul;
    MulUnfold(a, b);
    MulUnfold(a, Mul(b, c));
    MulUnfold(0, c);
    if a != 0 {
      MulAssoc(a / 2, b, c);
      var p := Mul(a / 2, b);
      MulLinearLeft(Select(a % 2, b), Double(p), c);
      MulComm(Double(p), c);
      MulDoubleRight(c, p);
      MulComm(c, p);
    }
  }

  // --- Powers of x -----------------------------------------------------------------

  function Power(n: nat): Elem {
    if n == 0 then 1 else Double(Power(n - 1))
  }

  lemma {:induction false} PowerAdd(i: nat, j: nat)
    ensures Mul(Power(i), Power(j)) == Power(i + j)
  {
    assert Power(0) == 1;
    assert j > 0 ==> Power(j) == Double(Power(j - 1)) && Power(i + j) == Double(Power(i + j - 1));
    hide *;
    if j == 0 {
      MulOne(Power(i));
    } else {
      PowerAdd(i, j - 1);
      MulDoubleRight(Power(i), Power(j - 1));
    }
  }

  // --- The order of x is 255 ---------------------------------------------------

  function Weight(b: Bit): nat {
    if b == I then 1 else 0
  }

  function Value(o: Octet): Elem {
    2 * (2 * (2 * (2 * (2 * (2 * (2 * Weight(o.b7) + Weight(o.b6)) + Weight(o.b5)) + Weight(o.b4))
        + Weight(o.b3)) + Weight(o.b2)) + Weight(o.b1)) + Weight(o.b0)
  }

  lemma XorHigh(n: nat)
    requires n < 8
    ensures Xor(8 + n, 8) == n
  {
    assert Pow2(3) == 8;
    hide *;
    XorDisjoint(n, 3);
    XorCancel(n, 8);
  }

  lemma DoubleHigh(a: Elem)
    ensures Double(a) == if a < 128 then 2 * a else Xor(2 * a, 285)
  {}

  /** Adding the modulus removes bit 8, flips bits 2, 3 and 4, and sets bit 0. */
  lemma XorModulus(n: nat, b3: nat, b2: nat, b1: nat, b0: nat)
    requires n < 8 && b3 < 2 && b2 < 2 && b1 < 2 && b0 < 2
    ensures Xor(2 * (2 * (2 * (2 * (2 * (8 + n) + b3) + b2) + b1) + b0), 285)
      == 2 * (2 * (2 * (2 * (2 * n + 1 - b3) + 1 - b2) + 1 - b1) + b0) + 1
  {
    hide *;
    var h3, n3 := 2 * (8 + n) + b3, 2 * n + 1 - b3;
    var h2, n2 := 2 * h3 + b2, 2 * n3 + 1 - b2;
    var h1, n1 := 2 * h2 + b1, 2 * n2 + 1 - b1;
    var h0 := 2 * h1 + b0;
    XorHigh(n);
    XorNext(8 + n, 8, b3, 1, h3, 17, n);
    XorNext(h3, 17, b2, 1, h2, 35, n3);
    XorNext(h2, 35, b1, 1, h1, 71, n2);
    XorNext(h1, 71, b0, 0, h0, 142, n1);
    XorNext(h0, 142, 0, 1, 2 * h0, 285, 2 * n1 + b0);
  }

  lemma DoubleIsNext(o: Octet)
    ensures Double(Value(o)) == Value(Next(o))
  {
    hide Xor, Double;
    DoubleHigh(Value(o));
    if o.b7 == I {
      XorModulus(2 * (2 * Weight(o.b6) + Weight(o.b5)) + Weight(o.b4), Weight(o.b3), Weight(o.b2), Weight(o.b1), Weight(o.b0));
    }
  }

  lemma PowerNext(n: nat, o: Octet)
    requires Power(n) == Value(o)
    ensures Power(n + 1) == Value(Next(o))
  {
    hide Double, Value, Next;
    DoubleIsNext(o);
  }

  lemma PowerNext5(n: nat, o: Octet)
    requires Power(n) == Value(o)
    ensures Power(n + 5) == Value(Next5(o))
  {
    hide Double, Value, Next, Power;
    PowerNext(n, o);
    PowerNext(n + 1, Next(o));
    PowerNext(n + 2, Next(Next(o)));
    PowerNext(n + 3, Next(Next(Next(o))));
    PowerNext(n + 4, Next(Next(Next(Next(o)))));
  }

  lemma PowerNext15(n: nat, o: Octet)
    requires Power(n) == Value(o)
    ensures Power(n + 15) == Value(Next15(o))
  {
    hide Double, Value, Next5, Power;
    PowerNext5(n, o);
    PowerNext5(n + 5, Next5(o));
    PowerNext5(n + 10, Next5(Next5(o)));
  }

  lemma OneOctet(o: Octet)
    ensures Value(o) == 1 <==> o == Octet(O, O, O, O, O, O, O, I)
  {}

  lemma PowerZero()
    ensures Power(0) == 1
  {
  }

  lemma PowersTo75()
    ensures Power(15) == Value(Octet(O, O, I, O, O, I, I, O))
    ensures Power(45) == Value(Octet(I, I, O, O, O, O, O, I))
    ensures Power(75) == Value(Octet(O, O, O, O, I, I, I, I))
  {
    hide *;
    PowerZero();
    From0();
    OneOctet(Octet(O, O, O, O, O, O, O, I));
    PowerNext15(0, Octet(O, O, O, O, O, O, O, I));
    PowerNext15(15, Octet(O, O, I, O, O, I, I, O));
    PowerNext15(30, Octet(O, I, I, O, O, O, O, O));
    PowerNext15(45, Octet(I, I, O, O, O, O, O, I));
    PowerNext15(60, Octet(I, O, I, I, I, O, O, I));
  }

  lemma PowersTo165()
    ensures Power(165) == Value(Octet(I, O, O, I, O, O, O, I))
  {
    hide *;
    PowersTo75();
    From0();
    From135();
    PowerNext15(75, Octet(O, O, O, O, I, I, I, I));
    PowerNext15(90, Octet(I, I, O, I, I, I, I, I));
    PowerNext15(105, Octet(O, O, O, I, I, O, I, O));
    PowerNext15(120, Octet(O, O, I, I, I, O, I, I));
    PowerNext15(135, Octet(I, O, I, O, I, O, O, I));
    PowerNext15(150, Octet(O, I, O, I, O, I, O, I));
  }

  lemma PowerCycle()
    ensures Power(255) == 1
  {
    hide *;
    PowersTo165();
    From135();
    OneOctet(Octet(O, O, O, O, O, O, O, I));
    PowerNext15(165, Octet(I, O, O, I, O, O, O, I));
    PowerNext15(180, Octet(I, O, O, I, O, I, I, O));
    PowerNext15(195, Octet(O, I, I, O, O, I, O, O));
    PowerNext15(210, Octet(O, I, O, I, I, O, O, I));
    PowerNext15(225, Octet(O, O, I, O, O, I, O, O));
    PowerNext15(240, Octet(O, O, I, O, I, I, O, O));
  }

  /** x has order 255: no proper divisor of 255 is a period. */
  lemma SmallDivisors()
    ensures Power(1) != 1 && Power(3) != 1 && Power(5) != 1
  {
    assert Power(0) == 1;
    hide *;
    Between();
    OneOctet(Octet(O, O, O, O, O, O, O, I));
    PowerNext(0, Octet(O, O, O, O, O, O, O, I));
    PowerNext(1, Octet(O, O, O, O, O, O, I, O));
    PowerNext(2, Next(Octet(O, O, O, O, O, O, I, O)));
    PowerNext5(0, Octet(O, O, O, O, O, O, O, I));
    OneOctet(Octet(O, O, O, O, O, O, I, O));
    OneOctet(Octet(O, O, O, O, I, O, O, O));
    OneOctet(Octet(O, O, I, O, O, O, O, O));
  }

  lemma LargeDivisors()
    ensures Power(15) != 1 && Power(17) != 1 && Power(51) != 1 && Power(85) != 1
  {
    hide *;
    PowersTo75();
    Between();
    PowerNext(15, Octet(O, O, I, O, O, I, I, O));
    PowerNext(16, Next(Octet(O, O, I, O, O, I, I, O)));
    PowerNext5(45, Octet(I, I, O, O, O, O, O, I));
    PowerNext(50, Next5(Octet(I, I, O, O, O, O, O, I)));
    PowerNext5(75, Octet(O, O, O, O, I, I, I, I));
    PowerNext5(80, Next5(Octet(O, O, O, O, I, I, I, I)));
    OneOctet(Octet(O, O, I, O, O, I, I, O));
    OneOctet(Octet(I, O, O, I, I, O, O, O));
    OneOctet(Octet(O, O, O, O, I, O, I, O));
    OneOctet(Octet(I, I, O, I, O, I, I, O));
  }

  /** Euclid's algorithm on periods: two periods have a common divisor that is a period. */
  lemma {:induction false} CommonPeriod(d: nat, n: nat) returns (g: nat, k: nat, l: nat)
    requires d > 0 && Power(d) == 1 && Power(n) == 1
    ensures g > 0 && d == k * g && n == l * g && Power(g) == 1
    decreases d + n
  {
    hide *;
    if n == 0 {
      g, k, l := d, 1, 0;
    } else if d <= n {
      PowerAdd(d, n - d);
      MulOne(Power(n - d));
      g, k, l := CommonPeriod(d, n - d);
      assert n == (k + l) * g;
      l := k + l;
    } else {
      PowerAdd(n, d - n);
      MulOne(Power(d - n));
      g, l, k := CommonPeriod(n, d - n);
      assert d == (k + l) * g;
      k := k + l;
    }
  }

  lemma ProductBound(l: nat, g: nat)
    requires l >= 16 && g >= 16
    ensures l * g >= 256
  {}

  lemma DivisorsOf255(g: nat, l: nat)
    requires l * g == 255 && g < 255
    ensures g in {1, 3, 5, 15, 17, 51, 85}
  {
    if l >= 16 && g >= 16 {
      ProductBound(l, g);
    } else if l < 16 {
      assert l in {2, 3, 4, 5, 6, 7, 8, 9, 10, 11, 12, 13, 14, 15};
    } else {
      assert g in {1, 2, 3, 4, 5, 6, 7, 8, 9, 10, 11, 12, 13, 14, 15};
    }
  }

  lemma NoShortPeriod(d: nat)
    requires 0 < d < 255
    ensures Power(d) != 1
  {
    hide *;
    if Power(d) == 1 {
      PowerCycle();
      var g, k, l := CommonPeriod(d, 255);
      assert g <= d by { assert k != 0; assert k * g >= g; }
      DivisorsOf255(g, l);
      SmallDivisors();
      LargeDivisors();
    }
  }

  lemma PowerPeriodic(n: nat)
    ensures Power(n + 255) == Power(n)
  {
    hide *;
    PowerCycle();
    PowerAdd(n, 255);
    MulOne(Power(n));
  }

  /** The 255 powers of x are distinct. */
  lemma {:induction false} PowerInjective(i: nat, j: nat)
    requires i < 255 && j < 255 && Power(i) == Power(j)
    ensures i == j
  {
    hide *;
    if i < j {
      PowerAdd(i, 255 - i);
      PowerAdd(j, 255 - i);
      PowerPeriodic(j - i);
      assert j + (255 - i) == (j - i) + 255 && i + (255 - i) == 255;
      PowerCycle();
      NoShortPeriod(j - i);
    } else if j < i {
      PowerInjective(j, i);
    }
  }

  lemma {:induction false} PowerNonzero(n: nat)
    ensures Power(n) != 0
  {
    if n != 0 {
      PowerNonzero(n - 1);
      DoubleHigh(Power(n - 1));
      hide Xor;
      XorZero(2 * Power(n - 1), 285);
    }
  }

  function FirstPowers(n: nat): set<Elem> {
    set i | 0 <= i < n :: Power(i)
  }

  lemma {:induction false} FirstPowersDistinct(n: nat)
    requires n <= 255
    ensures |FirstPowers(n)| == n
  {
    if n != 0 {
      FirstPowersDistinct(n - 1);
      forall i | 0 <= i < n - 1
        ensures Power(i) != Power(n - 1)
      {
        if Power(i) == Power(n - 1) {
          PowerInjective(i, n - 1);
        }
      }
      assert FirstPowers(n) == FirstPowers(n - 1) + {Power(n - 1)};
    }
  }

  /** The nonzero elements up to n. */
  function Positive(n: nat): set<nat> {
    if n == 0 then {} else Positive(n - 1) + {n}
  }

  lemma {:induction false} PositiveCount(n: nat)
    ensures |Positive(n)| == n
    ensures forall a: nat :: a in Positive(n) <==> 0 < a <= n
  {
    if n != 0 {
      PositiveCount(n - 1);
    }
  }

  lemma SubsetSameSize<T>(a: set<T>, b: set<T>)
    requires a <= b && |a| == |b|
    ensures a == b
  {
    if x :| x in b && x !in a {
      SubsetCount(a + {x}, b);
    }
  }

  lemma {:induction false} SubsetCount<T>(a: set<T>, b: set<T>)
    requires a <= b
    ensures |a| <= |b|
  {
    if x :| x in a {
      SubsetCount(a - {x}, b - {x});
    }
  }

  /** x is primitive: every nonzero element is one of its first 255 powers. */
  lemma Primitive(a: Elem)
    requires a != 0
    ensures exists n: nat :: n < 255 && Power(n) == a
  {
    hide Power;
    FirstPowersDistinct(255);
    PositiveCount(255);
    forall e | e in FirstPowers(255)
      ensures e in Positive(255)
    {
      var i: nat :| i < 255 && Power(i) == e;
      PowerNonzero(i);
    }
    SubsetSameSize(FirstPowers(255), Positive(255));
    assert a in FirstPowers(255);
  }

  lemma NoZeroDivisors(a: Elem, b: Elem)
    requires a != 0 && b != 0
    ensures Mul(a, b) != 0
  {
    hide *;
    Primitive(a);
    Primitive(b);
    var i: nat :| i < 255 && Power(i) == a;
    var j: nat :| j < 255 && Power(j) == b;
    PowerAdd(i, j);
    PowerNonzero(i + j);
  }

  /** `Mul` is the product of polynomials, reduced modulo 0x11d. */
  lemma {:induction false} MulIsRemainder(a: Elem, b: Elem)
    ensures IsRemainder(Clmul(a, b), 0x11d, Mul(a, b))
  {
    ElemLength(Mul(a, b));
    if a == 0 {
      IsRemainderIntro(0, MODULUS, 0, 0);
    } else {
      MulIsRemainder(a / 2, b);
      var m := Mul(a / 2, b);
      var q: nat :| Clmul(a / 2, b) == Xor(Clmul(q, MODULUS), m);
      var p := 2 * q + (if m >= 128 then 1 else 0);
      assert p / 2 == q && p % 2 == 1 <==> m >= 128;
      MulUnfold(a, b);
      ClmulUnfold(a, b);
      ClmulUnfold(p, MODULUS);
      DoubleHigh(m);
      ReductionStep(Select(a % 2, b), Clmul(q, MODULUS), m, if m >= 128 then MODULUS else 0, Double(m));
      IsRemainderIntro(Clmul(a, b), MODULUS, Mul(a, b), p);
    }
  }

  lemma IsRemainderIntro(p: nat, g: nat, r: nat, q: nat)
    requires BitLength(r) < BitLength(g) && p == Xor(Clmul(q, g), r)
    ensures IsRemainder(p, g, r)
  {}

  lemma ElemLength(a: Elem)
    ensures BitLength(a) < BitLength(MODULUS)
  {
    assert MODULUS >= 0x100;
    hide *;
    Pow2Values();
    BitLengthBelow(a, 8);
    BitLengthBelow(MODULUS, 8);
  }

  lemma ReductionStep(x: nat, c: nat, m: nat, g: nat, d: nat)
    requires d == Xor(2 * m, g)
    ensures Xor(x, 2 * Xor(c, m)) == Xor(Xor(g, 2 * c), Xor(x, d))
  {
    hide *;
    calc {
      Xor(x, 2 * Xor(c, m));
      { XorDouble(c, m); }
      Xor(x, Xor(2 * c, 2 * m));
      { XorCancel(2 * m, g); XorComm(Xor(2 * m, g), g); XorComm(Xor(2 * m, g), g); }
      Xor(x, Xor(2 * c, Xor(g, d)));
      { XorAssoc(2 * c, g, d); XorComm(2 * c, g); }
      Xor(x, Xor(Xor(g, 2 * c), d));
      { XorAssoc(x, Xor(g, 2 * c), d); XorComm(x, Xor(g, 2 * c)); XorAssoc(Xor(g, 2 * c), x, d); }
      Xor(Xor(g, 2 * c), Xor(x, d));
    }
  }

  // --- Tables -------------------------------------------------------------------------

  /** The exponent table, written twice so that a sum of two logarithms needs no reduction, and the logarithm table. */
  class Tables {
    const exp: array<Elem>
    const log: array<Elem>

    ghost predicate Valid()
      reads exp, log
    {
      && exp.Length == 512 && log.Length == 256
      && (forall i | 0 <= i < 512 :: exp[i] == Power(i))
      && (forall a: Elem | a != 0 :: log[a] < 255 && Power(log[a]) == a)
    }

    constructor ()
      ensures Valid() && fresh(exp) && fresh(log)
    {
      exp := new Elem[512](_ => 0);
      log := new Elem[256](_ => 0);
      new;
      FillPowers(exp, log);
      RepeatPowers(exp);
      forall a: Elem | a != 0
        ensures log[a] < 255 && Power(log[a]) == a
      {
        Primitive(a);
      }
    }

    /** Multiplication by table lookup is multiplication in the field. */
    function Multiply(a: Elem, b: Elem): (product: Elem)
      requires Valid()
      reads exp, log
      ensures product == Mul(a, b)
    {
      MulZero(a, b);
      if a == 0 || b == 0 then 0
      else
        var i: nat, j: nat := log[a], log[b];
        PowerAdd(i, j);
        exp[i + j]
    }
  }

  /** The first n powers are in both tables. */
  ghost predicate Filled(exp: array<Elem>, log: array<Elem>, n: nat)
    reads exp, log
  {
    && exp.Length == 512 && log.Length == 256 && n <= 255
    && (forall k | 0 <= k < n :: exp[k] == Power(k))
    && (forall k | 0 <= k < n :: log[Power(k)] == k)
  }

  method RecordPower(exp: array<Elem>, log: array<Elem>, index: nat, value: Elem)
    requires index < 255 && value == Power(index) && exp != log && Filled(exp, log, index)
    modifies exp, log
    ensures Filled(exp, log, index + 1)
  {
    hide Power;
    FreshPower(index);
    exp[index] := value;
    log[value] := index;
  }

  /** Writes each power of x at its exponent, and each exponent at its power. */
  method FillPowers(exp: array<Elem>, log: array<Elem>)
    requires exp.Length == 512 && log.Length == 256 && exp != log
    modifies exp, log
    ensures Filled(exp, log, 255)
  {
    assert Power(0) == 1;
    hide Power, Filled;
    var value: nat := 1;
    assert Filled(exp, log, 0) by { FilledNone(exp, log); }
    for index := 0 to 255
      invariant value == Power(index) && Filled(exp, log, index)
    {
      RecordPower(exp, log, index, value);
      value := NextValue(index, value);
    }
  }

  lemma FilledNone(exp: array<Elem>, log: array<Elem>)
    requires exp.Length == 512 && log.Length == 256
    ensures Filled(exp, log, 0)
  {}

  /** Doubles the value and subtracts the modulus when bit 8 appears. */
  method NextValue(ghost n: nat, value: nat) returns (next: nat)
    requires value == Power(n)
    ensures next == Power(n + 1)
  {
    hide *;
    PowerStep(n);
    next := 2 * value;
    if next / 0x100 % 2 == 1 {
      next := Xor(next, MODULUS);
    }
  }

  /** Repeats the first 255 entries up to the end of the table. */
  method RepeatPowers(exp: array<Elem>)
    requires exp.Length == 512
    requires forall k | 0 <= k < 255 :: exp[k] == Power(k)
    modifies exp
    ensures forall k | 0 <= k < 512 :: exp[k] == Power(k)
  {
    hide *;
    for index := 255 to 512
      invariant forall k | 0 <= k < index :: exp[k] == Power(k)
    {
      PowerPeriodic(index - 255);
      exp[index] := exp[index - 255];
    }
  }

  lemma MulZero(a: Elem, b: Elem)
    ensures a == 0 || b == 0 ==> Mul(a, b) == 0
  {
    assert Mul(0, b) == 0;
    MulOne(a);
  }

  lemma PowerStep(n: nat)
    ensures Power(n + 1) == if 2 * Power(n) / 0x100 % 2 == 1 then Xor(2 * Power(n), MODULUS) else 2 * Power(n)
  {
    hide Xor;
  }

  lemma FreshPower(n: nat)
    requires n < 255
    ensures forall k: nat | k < n :: Power(k) != Power(n)
  {
    hide *;
    forall k: nat | k < n
      ensures Power(k) != Power(n)
    {
      if Power(k) == Power(n) {
        PowerInjective(k, n);
      }
    }
  }
}
