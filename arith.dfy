/** Natural-number powers and the facts about Euclidean division that the
    cell arithmetic of the sampler rests on. For a positive divisor Dafny's
    `/` on `int` is floor division, which is what the sampler's
    `(x / 2^level).floor()` computes on whole numbers. */
module Arith {

  function Pow(b: nat, e: nat): nat
  {
    if e == 0 then 1 else b * Pow(b, e - 1)
  }

  lemma {:induction false} PowPositive(b: nat, e: nat)
    requires b > 0
    ensures Pow(b, e) > 0
  {
    if e > 0 {
      PowPositive(b, e - 1);
      MulPositive(b, Pow(b, e - 1));
    }
  }

  lemma PowZeroBase(e: nat)
    requires e > 0
    ensures Pow(0, e) == 0
  {
  }

  lemma {:induction false} PowAdd(b: nat, e1: nat, e2: nat)
    ensures Pow(b, e1 + e2) == Pow(b, e1) * Pow(b, e2)
  {
    if e1 > 0 {
      PowAdd(b, e1 - 1, e2);
      calc {
        Pow(b, e1 + e2);
        b * Pow(b, e1 - 1 + e2);
        b * (Pow(b, e1 - 1) * Pow(b, e2));
        { MulAssoc(b, Pow(b, e1 - 1), Pow(b, e2)); }
        b * Pow(b, e1 - 1) * Pow(b, e2);
      }
    }
  }

  lemma MulPositive(a: nat, b: nat)
    requires a > 0 && b > 0
    ensures a * b > 0
  {
  }

  lemma MulAssoc(a: int, b: int, c: int)
    ensures a * (b * c) == a * b * c
  {
  }

  /** `q` and `r` are the quotient and remainder of `a` by `d` whenever
      `a == q * d + r` with `0 <= r < d`. */
  lemma DivModUnique(a: int, d: int, q: int, r: int)
    requires d > 0 && 0 <= r < d && a == q * d + r
    ensures a / d == q && a % d == r
  {
    var q' := a / d;
    if q' > q {
      MulMonotone(1, q' - q, d);
    } else if q' < q {
      MulMonotone(1, q - q', d);
    }
  }

  lemma MulMonotone(a: int, b: int, c: int)
    requires a <= b && c >= 0
    ensures a * c <= b * c
  {
  }

  /** Appending a digit below `b` to a value below `p` gives a value below `b * p`. */
  lemma AppendDigit(v: int, p: int, d: int, b: int)
    requires 0 <= v < p && 0 <= d < b
    ensures 0 <= v * b + d < b * p
  {
    MulMonotone(0, v, b);
    MulMonotone(v, p - 1, b);
  }

  /** Dividing by `b` and then by `c` is dividing by `b * c`. */
  lemma DivDiv(a: int, b: int, c: int)
    requires b > 0 && c > 0
    ensures a / b / c == a / (b * c)
  {
    var q1, r1 := a / b, a % b;
    var q2, r2 := q1 / c, q1 % c;
    assert a == (q2 * c + r2) * b + r1;
    assert a == q2 * (b * c) + (r2 * b + r1) by {
      assert (q2 * c + r2) * b == q2 * (b * c) + r2 * b;
    }
    assert r2 * b <= (c - 1) * b by { MulMonotone(r2, c - 1, b); }
    assert (c - 1) * b == b * c - b;
    MulPositive(b, c);
    DivModUnique(a, b * c, q2, r2 * b + r1);
  }

  /** Dividing by `b` and then by `b^(e-1)` is dividing by `b^e`. */
  lemma DivPow(a: int, b: nat, e: nat)
    requires b > 0 && e > 0
    ensures Pow(b, e - 1) > 0 && a / b / Pow(b, e - 1) == a / Pow(b, e)
  {
    PowPositive(b, e - 1);
    DivDiv(a, b, Pow(b, e - 1));
  }

  lemma DivNonneg(a: int, d: int)
    requires a >= 0 && d > 0
    ensures 0 <= a / d <= a
  {
    var q := a / d;
    assert a == q * d + a % d;
    if q < 0 { MulMonotone(q, -1, d); }
    if q > a { MulMonotone(1, d, q); }
  }

  /** A number below `a * b` has quotient by `a` below `b`. */
  lemma DivBelow(i: int, a: int, b: int)
    requires a > 0 && 0 <= i < a * b
    ensures 0 <= i / a < b
  {
    if i / a >= b {
      MulMonotone(b, i / a, a);
    }
  }
}
