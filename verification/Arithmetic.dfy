/** Facts about multiplication and division that the solver needs one at a time. */
module Arithmetic {
  lemma Floor(x: int, f: int)
    requires f > 0
    ensures x / f * f <= x <= x / f * f + (f - 1)
    ensures x >= 0 ==> x / f >= 0
  {
    assert x == x / f * f + x % f;
  }

  lemma ScaleDown(a: int, b: int, f: int)
    requires a <= b && f > 0
    ensures a * f <= b * f
  {
  }

  lemma Distribute(a: int, b: int, f: int)
    ensures (a + b) * f == a * f + b * f
  {
  }

  lemma QuotientUnique(x: int, q: int, f: int)
    requires f > 0 && q * f <= x < q * f + f
    ensures x / f == q
  {
    var d := x / f;
    Floor(x, f);
    if d > q {
      ScaleDown(q + 1, d, f);
      Distribute(q, 1, f);
    } else if d < q {
      ScaleDown(d + 1, q, f);
      Distribute(d, 1, f);
    }
  }

  lemma DivideSum(whole: int, rest: int, f: int)
    requires f > 0
    ensures (whole * f + rest) / f == whole + rest / f
  {
    Floor(rest, f);
    Distribute(whole, rest / f, f);
    QuotientUnique(whole * f + rest, whole + rest / f, f);
  }
}
