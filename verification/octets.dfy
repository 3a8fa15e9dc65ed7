/** Bytes spelled out as eight bits, for evaluating particular powers of x. */
module Octets {
  datatype Bit = O | I

  datatype Octet = Octet(b7: Bit, b6: Bit, b5: Bit, b4: Bit, b3: Bit, b2: Bit, b1: Bit, b0: Bit)

  function Not(b: Bit): Bit {
    match b
    case O => I
    case I => O
  }

  /** Doubling: the top bit leaves, and flips bits 2, 3 and 4 and sets bit 0. */
  function Next(o: Octet): Octet {
    if o.b7 == O then Octet(o.b6, o.b5, o.b4, o.b3, o.b2, o.b1, o.b0, O)
    else Octet(o.b6, o.b5, o.b4, Not(o.b3), Not(o.b2), Not(o.b1), o.b0, I)
  }

  function Next5(o: Octet): Octet {
    Next(Next(Next(Next(Next(o)))))
  }

  function Next15(o: Octet): Octet {
    Next5(Next5(Next5(o)))
  }

  // The doublings of 1, fifteen at a time, come back to 1 after 255 steps.

  lemma From0()
    ensures Next15(Octet(O, O, O, O, O, O, O, I)) == Octet(O, O, I, O, O, I, I, O)
    ensures Next15(Octet(O, O, I, O, O, I, I, O)) == Octet(O, I, I, O, O, O, O, O)
    ensures Next15(Octet(O, I, I, O, O, O, O, O)) == Octet(I, I, O, O, O, O, O, I)
    ensures Next15(Octet(I, I, O, O, O, O, O, I)) == Octet(I, O, I, I, I, O, O, I)
    ensures Next15(Octet(I, O, I, I, I, O, O, I)) == Octet(O, O, O, O, I, I, I, I)
    ensures Next15(Octet(O, O, O, O, I, I, I, I)) == Octet(I, I, O, I, I, I, I, I)
    ensures Next15(Octet(I, I, O, I, I, I, I, I)) == Octet(O, O, O, I, I, O, I, O)
    ensures Next15(Octet(O, O, O, I, I, O, I, O)) == Octet(O, O, I, I, I, O, I, I)
    ensures Next15(Octet(O, O, I, I, I, O, I, I)) == Octet(I, O, I, O, I, O, O, I)
  {}

  lemma From135()
    ensures Next15(Octet(I, O, I, O, I, O, O, I)) == Octet(O, I, O, I, O, I, O, I)
    ensures Next15(Octet(O, I, O, I, O, I, O, I)) == Octet(I, O, O, I, O, O, O, I)
    ensures Next15(Octet(I, O, O, I, O, O, O, I)) == Octet(I, O, O, I, O, I, I, O)
    ensures Next15(Octet(I, O, O, I, O, I, I, O)) == Octet(O, I, I, O, O, I, O, O)
    ensures Next15(Octet(O, I, I, O, O, I, O, O)) == Octet(O, I, O, I, I, O, O, I)
    ensures Next15(Octet(O, I, O, I, I, O, O, I)) == Octet(O, O, I, O, O, I, O, O)
    ensures Next15(Octet(O, O, I, O, O, I, O, O)) == Octet(O, O, I, O, I, I, O, O)
    ensures Next15(Octet(O, O, I, O, I, I, O, O)) == Octet(O, O, O, O, O, O, O, I)
  {}

  /** Powers 1, 3, 5, 17, 51 and 85, from the multiples of fifteen below them. */
  lemma Between()
    ensures Next(Octet(O, O, O, O, O, O, O, I)) == Octet(O, O, O, O, O, O, I, O)
    ensures Next(Next(Octet(O, O, O, O, O, O, I, O))) == Octet(O, O, O, O, I, O, O, O)
    ensures Next5(Octet(O, O, O, O, O, O, O, I)) == Octet(O, O, I, O, O, O, O, O)
    ensures Next(Next(Octet(O, O, I, O, O, I, I, O))) == Octet(I, O, O, I, I, O, O, O)
    ensures Next(Next5(Octet(I, I, O, O, O, O, O, I))) == Octet(O, O, O, O, I, O, I, O)
    ensures Next5(Next5(Octet(O, O, O, O, I, I, I, I))) == Octet(I, I, O, I, O, I, I, O)
  {}
}
