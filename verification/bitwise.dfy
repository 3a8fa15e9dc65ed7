/** Non-negative integers read as bit strings: the `^`, `<<` and `>>>` of the encoder. */
module Bitwise {

  type Byte = x: nat | x < 256

  function Pow2(n: nat): (r: nat)
    ensures r > 0
  {
    if n == 0 then 1 else 2 * Pow2(n - 1)
  }

  /** Exclusive or, bit by bit from the least significant one. */
  function Xor(a: nat, b: nat): nat {
    if a == 0 then b
    else if b == 0 then a
    else 2 * Xor(a / 2, b / 2) + (if a % 2 != b % 2 then 1 else 0)
  }

  lemma XorBits(a: nat, b: nat, x: nat, y: nat)
    requires x < 2 && y < 2
    ensures Xor(2 * a + x, 2 * b + y) == 2 * Xor(a, b) + (if x != y then 1 else 0)
  {
    var p, q := 2 * a + x, 2 * b + y;
    assert p / 2 == a && q / 2 == b && p % 2 == x && q % 2 == y;
  }

  lemma XorNext(a: nat, b: nat, x: nat, y: nat, p: nat, q: nat, r: nat)
    requires x < 2 && y < 2
    requires p == 2 * a + x && q == 2 * b + y && Xor(a, b) == r
    ensures Xor(p, q) == 2 * r + if x != y then 1 else 0
  {
    hide *;
    XorBits(a, b, x, y);
  }

  lemma XorUnfold(a: nat, b: nat)
    ensures Xor(a, b) == 2 * Xor(a / 2, b / 2) + (if a % 2 != b % 2 then 1 else 0)
    ensures Xor(a, b) / 2 == Xor(a / 2, b / 2)
    ensures Xor(a, b) % 2 == (if a % 2 != b % 2 then 1 else 0)
  {
    hide *;
    XorBits(a / 2, b / 2, a % 2, b % 2);
    assert a == 2 * (a / 2) + a % 2 && b == 2 * (b / 2) + b % 2;
  }

  lemma XorDouble(a: nat, b: nat)
    ensures Xor(2 * a, 2 * b) == 2 * Xor(a, b)
  {
    hide *;
    XorBits(a, b, 0, 0);
  }

  lemma {:induction false} XorComm(a: nat, b: nat)
    ensures Xor(a, b) == Xor(b, a)
  {
    if a != 0 && b != 0 {
      hide *;
      XorUnfold(a, b);
      XorUnfold(b, a);
      XorComm(a / 2, b / 2);
    }
  }

  lemma {:induction false} XorSelf(a: nat)
    ensures Xor(a, a) == 0
  {
    if a != 0 {
      hide *;
      XorUnfold(a, a);
      XorSelf(a / 2);
    }
  }

  lemma {:induction false} XorAssoc(a: nat, b: nat, c: nat)
    ensures Xor(Xor(a, b), c) == Xor(a, Xor(b, c))
    decreases a + b + c
  {
    if a != 0 && b != 0 && c != 0 {
      hide *;
      XorAssoc(a / 2, b / 2, c / 2);
      XorUnfold(a, b);
      XorUnfold(b, c);
      XorUnfold(Xor(a, b), c);
      XorUnfold(a, Xor(b, c));
    }
  }

  lemma {:induction false} XorBound(a: nat, b: nat, n: nat)
    requires a < Pow2(n) && b < Pow2(n)
    ensures Xor(a, b) < Pow2(n)
  {
    if a != 0 && b != 0 {
      assert Pow2(n) == 2 * Pow2(n - 1);
      hide *;
      XorUnfold(a, b);
      XorBound(a / 2, b / 2, n - 1);
    }
  }

  /** Pairs of summands may be exchanged. */
  lemma XorSwap(a: nat, b: nat, c: nat, d: nat)
    ensures Xor(Xor(a, b), Xor(c, d)) == Xor(Xor(a, c), Xor(b, d))
  {
    hide *;
    calc {
      Xor(Xor(a, b), Xor(c, d));
      { XorAssoc(a, b, Xor(c, d)); XorAssoc(b, c, d); }
      Xor(a, Xor(Xor(b, c), d));
      { XorComm(b, c); XorAssoc(c, b, d); }
      Xor(a, Xor(c, Xor(b, d)));
      { XorAssoc(a, c, Xor(b, d)); }
      Xor(Xor(a, c), Xor(b, d));
    }
  }

  /** Adding the same summand twice changes nothing. */
  lemma XorCancel(a: nat, b: nat)
    ensures Xor(a, Xor(a, b)) == b && Xor(Xor(a, b), b) == a
  {
    assert Xor(0, b) == b && Xor(a, 0) == a;
    hide *;
    XorAssoc(a, a, b);
    XorSelf(a);
    XorAssoc(a, b, b);
    XorSelf(b);
  }

  lemma XorZero(a: nat, b: nat)
    ensures Xor(a, b) == 0 <==> a == b
  {
    assert Xor(a, 0) == a;
    hide *;
    XorSelf(a);
    XorCancel(a, b);
  }

  /** The sum of two numbers of bit length n + 1 is shorter. */
  lemma {:induction false} XorTop(a: nat, b: nat, n: nat)
    requires Pow2(n) <= a < 2 * Pow2(n) && Pow2(n) <= b < 2 * Pow2(n)
    ensures Xor(a, b) < Pow2(n)
  {
    if n != 0 {
      assert Pow2(n) == 2 * Pow2(n - 1);
      hide *;
      XorUnfold(a, b);
      XorTop(a / 2, b / 2, n - 1);
    } else {
      XorSelf(1);
    }
  }

  /** A shorter summand leaves the leading bit in place. */
  lemma {:induction false} XorTopLow(a: nat, b: nat, n: nat)
    requires Pow2(n) <= a < 2 * Pow2(n) && b < Pow2(n)
    ensures Pow2(n) <= Xor(a, b) < 2 * Pow2(n)
  {
    if n != 0 && b != 0 {
      assert Pow2(n) == 2 * Pow2(n - 1);
      hide *;
      XorUnfold(a, b);
      XorTopLow(a / 2, b / 2, n - 1);
    }
  }

  /** Setting a bit above all others is an addition. */
  lemma {:induction false} XorDisjoint(a: nat, n: nat)
    requires a < Pow2(n)
    ensures Xor(a, Pow2(n)) == a + Pow2(n)
  {
    if n != 0 && a != 0 {
      assert Pow2(n) == 2 * Pow2(n - 1);
      hide *;
      XorUnfold(a, Pow2(n));
      XorDisjoint(a / 2, n - 1);
    }
  }

  /** Inclusive or. */
  function Or(a: nat, b: nat): nat {
    if a == 0 then b
    else if b == 0 then a
    else 2 * Or(a / 2, b / 2) + (if a % 2 == 1 || b % 2 == 1 then 1 else 0)
  }

  lemma OrBits(a: nat, b: nat, y: nat)
    requires y < 2
    ensures Or(2 * a, 2 * b + y) == 2 * Or(a, b) + y
  {
    var p, q := 2 * a, 2 * b + y;
    assert p / 2 == a && q / 2 == b && p % 2 == 0 && q % 2 == y;
  }

  /** Logical right shift. */
  function ShiftRight(a: nat, n: nat): nat {
    if n == 0 then a else ShiftRight(a / 2, n - 1)
  }

  /** Left shift. */
  function Shift(a: nat, n: nat): nat {
    if n == 0 then a else 2 * Shift(a, n - 1)
  }

  lemma {:induction false} ShiftScales(a: nat, n: nat)
    ensures Shift(a, n) == a * Pow2(n)
  {
    if n != 0 {
      ShiftScales(a, n - 1);
    }
  }

  lemma ShiftDisjointStep(c: nat, h: nat, y: nat, p: nat, b: nat)
    requires p == 2 * c && b == 2 * h + y && y < 2
    requires Or(c, h) == Xor(c, h) == c + h
    ensures Or(p, b) == Xor(p, b) == p + b
  {
    hide *;
    OrBits(c, h, y);
    XorNext(c, h, 0, y, p, b, c + h);
  }

  lemma {:induction false} ShiftDisjoint(a: nat, b: nat, n: nat)
    requires b < Pow2(n)
    ensures Or(Shift(a, n), b) == Xor(Shift(a, n), b) == Shift(a, n) + b
  {
    if n == 0 {
      assert b == 0 && Or(a, 0) == a && Xor(a, 0) == a;
    } else {
      var c := Shift(a, n - 1);
      assert Shift(a, n) == 2 * c && Pow2(n) == 2 * Pow2(n - 1);
      hide *;
      var h, y := b / 2, b % 2;
      assert b == 2 * h + y;
      ShiftDisjoint(a, h, n - 1);
      ShiftDisjointStep(c, h, y, Shift(a, n), b);
    }
  }

  /** On numbers without a common bit, `|` and `^` are both addition. */
  lemma OrDisjoint(a: nat, b: nat, n: nat)
    requires b < Pow2(n)
    ensures Or(a * Pow2(n), b) == Xor(a * Pow2(n), b) == a * Pow2(n) + b
  {
    hide *;
    ShiftScales(a, n);
    ShiftDisjoint(a, b, n);
  }
}
