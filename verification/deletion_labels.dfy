/** The names under which the assets of a deletion lie in the trash: a padded number, a dash and the asset's own name. */
module DeletionLabels {
  function Digit(d: nat): char
    requires d < 10
  {
    ('0' as int + d) as char
  }

  function Digits(n: nat): string {
    if n < 10 then [Digit(n)] else Digits(n / 10) + [Digit(n % 10)]
  }

  /** At least three digits. */
  function Padded(n: nat): string {
    if n < 10 then "00" + Digits(n) else if n < 100 then "0" + Digits(n) else Digits(n)
  }

  function Label(n: nat, base: string): string {
    Padded(n) + "-" + base
  }

  /** Reads the number at the start of a string. */
  function ReadNumber(s: string, sofar: nat): nat {
    if s != [] && '0' <= s[0] <= '9' then ReadNumber(s[1..], 10 * sofar + (s[0] as int - '0' as int)) else sofar
  }

  lemma {:induction false} ReadDigits(n: nat, s: string)
    ensures ReadNumber(Digits(n) + s, 0) == ReadNumber(s, n)
  {
    if n < 10 {
      ReadDigit(n, s, 0);
      assert Digits(n) + s == [Digit(n)] + s;
    } else {
      ReadDigits(n / 10, [Digit(n % 10)] + s);
      ReadDigit(n % 10, s, n / 10);
      assert Digits(n) + s == Digits(n / 10) + ([Digit(n % 10)] + s);
    }
  }

  lemma ReadDigit(d: nat, s: string, sofar: nat)
    requires d < 10
    ensures ReadNumber([Digit(d)] + s, sofar) == ReadNumber(s, 10 * sofar + d)
  {
    assert ([Digit(d)] + s)[1..] == s;
  }

  lemma ReadZero(s: string)
    ensures ReadNumber("0" + s, 0) == ReadNumber(s, 0)
  {
    assert ("0" + s)[1..] == s;
  }

  lemma ReadDash(s: string, sofar: nat)
    requires s != [] && s[0] == '-'
    ensures ReadNumber(s, sofar) == sofar
  {
  }

  /** The number can be read back from a label. */
  lemma LabelNumber(n: nat, base: string)
    ensures ReadNumber(Label(n, base), 0) == n
  {
    hide ReadNumber, Digits;
    var tail := "-" + base;
    ReadDash(tail, n);
    ReadDigits(n, tail);
    ReadZero(Digits(n) + tail);
    ReadZero("0" + (Digits(n) + tail));
    assert n < 10 ==> Label(n, base) == "0" + ("0" + (Digits(n) + tail));
    assert 10 <= n < 100 ==> Label(n, base) == "0" + (Digits(n) + tail);
    assert n >= 100 ==> Label(n, base) == Digits(n) + tail;
  }

  /** No two assets of a deletion get the same name. */
  lemma LabelsDiffer(i: nat, a: string, k: nat, b: string)
    requires Label(i, a) == Label(k, b)
    ensures i == k && a == b
  {
    LabelNumber(i, a);
    LabelNumber(k, b);
    assert Label(i, a)[|Padded(i)| + 1..] == a;
    assert Label(k, b)[|Padded(k)| + 1..] == b;
  }
}
