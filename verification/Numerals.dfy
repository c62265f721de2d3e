/** Fixed-width numerals: padded with zeros, their text order is their numeric order. */
module Numerals {
  import opened Text

  function Power(base: nat, w: nat): nat {
    if w == 0 then 1 else base * Power(base, w - 1)
  }

  function Digit(d: nat): char
    requires d < 16
  {
    "0123456789abcdef"[d]
  }

  /** Decimal digits, then small letters. */
  lemma DigitsWritten(d: nat)
    requires d < 16
    ensures Digit(d) as int == if d < 10 then '0' as int + d else 'a' as int + (d - 10)
  {
  }

  lemma DigitsOrdered(c: nat, d: nat)
    requires c < d < 16
    ensures Digit(c) < Digit(d)
  {
  }

  function Higher(n: nat, base: nat): nat
    requires base > 0
  {
    n / base
  }

  function Lowest(n: nat, base: nat): (d: nat)
    requires base > 0
    ensures d < base
  {
    n % base
  }

  /** The number in the given base, padded with zeros to a width it fits in. */
  function Numeral(n: nat, base: nat, width: nat): (s: string)
    requires 2 <= base <= 16
    ensures |s| == width
  {
    if width == 0 then "" else Numeral(Higher(n, base), base, width - 1) + [Digit(Lowest(n, base))]
  }

  lemma TimesMonotone(base: nat, x: nat, y: nat)
    ensures x <= y ==> base * x <= base * y
  {
  }

  lemma HigherFits(n: nat, base: nat, width: nat)
    requires base > 0 && width > 0 && n < Power(base, width)
    ensures Higher(n, base) < Power(base, width - 1)
  {
    TimesMonotone(base, Power(base, width - 1), n / base);
  }

  lemma HigherThenLowest(n: nat, m: nat, base: nat)
    requires n < m && base > 0
    ensures Higher(n, base) < Higher(m, base)
            || (Higher(n, base) == Higher(m, base) && Lowest(n, base) < Lowest(m, base))
  {
    TimesMonotone(base, m / base + 1, n / base);
    assert n == base * (n / base) + n % base && m == base * (m / base) + m % base;
    assert base * (m / base + 1) == base * (m / base) + base;
  }

  lemma LastDigit(n: nat, base: nat, width: nat, s: string)
    requires 2 <= base <= 16 && width > 0
    ensures Numeral(n, base, width) + s == Numeral(Higher(n, base), base, width - 1) + ([Digit(Lowest(n, base))] + s)
  {
  }

  lemma LastDigitDecides(q: string, c: nat, d: nat, s: string, t: string)
    requires c < d < 16
    ensures Before(q + ([Digit(c)] + s), q + ([Digit(d)] + t))
  {
    DigitsOrdered(c, d);
    FirstDiffers(Digit(c), Digit(d), s, t);
    BeforePrefixed(q, [Digit(c)] + s, [Digit(d)] + t);
  }

  lemma FirstDiffers(c: char, d: char, s: string, t: string)
    requires c < d
    ensures Before([c] + s, [d] + t)
  {
  }

  /** Text order of fixed-width numerals is numeric order, whatever text follows them. */
  lemma {:induction false} NumeralOrdered(n: nat, m: nat, base: nat, width: nat, s: string, t: string)
    requires 2 <= base <= 16 && n < m < Power(base, width)
    ensures Before(Numeral(n, base, width) + s, Numeral(m, base, width) + t)
    decreases width
  {
    assert width > 0;
    hide *;
    HigherFits(m, base, width);
    HigherThenLowest(n, m, base);
    LastDigit(n, base, width, s);
    LastDigit(m, base, width, t);
    var c, d := Lowest(n, base), Lowest(m, base);
    if Higher(n, base) < Higher(m, base) {
      NumeralOrdered(Higher(n, base), Higher(m, base), base, width - 1, [Digit(c)] + s, [Digit(d)] + t);
    } else {
      LastDigitDecides(Numeral(Higher(n, base), base, width - 1), c, d, s, t);
    }
  }
}
