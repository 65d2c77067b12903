/**
 * Percentages as exact ratios.  The application divides in floating point
 * and rounds for display; the model keeps `num / den` and compares two
 * ratios by cross-multiplication.
 */
module Ratios {

  /** The percentage `100 * num / den`; every ratio the model builds has `den > 0`. */
  datatype Ratio = Ratio(num: nat, den: nat)

  /** `(score / total * 100) if total > 0 else 0`: the guarded share used for
      the overall, per-subject and per-month averages. */
  function Fraction(score: nat, total: nat): (r: Ratio)
    ensures r.den > 0
  {
    if total > 0 then Ratio(score, total) else Ratio(0, 1)
  }

  /** a <= b as numbers. */
  predicate AtMost(a: Ratio, b: Ratio)
  {
    a.num * b.den <= b.num * a.den
  }

  /** a < b as numbers. */
  predicate Below(a: Ratio, b: Ratio)
  {
    a.num * b.den < b.num * a.den
  }

  /** The larger of two ratios (the first when they are equal). */
  function Max(a: Ratio, b: Ratio): (m: Ratio)
    ensures m == a || m == b
    ensures AtMost(a, m) && AtMost(b, m)
  {
    if Below(a, b) then b else a
  }

  lemma MulLe(x: nat, y: nat, k: nat)
    requires x <= y
    ensures x * k <= y * k
  {
  }

  lemma MulCancel(x: nat, y: nat, k: nat)
    requires k > 0 && x * k <= y * k
    ensures x <= y
  {
    if x > y {
      MulLe(y + 1, x, k);
    }
  }

  /** `AtMost` is transitive on ratios with positive denominators. */
  lemma {:induction false} AtMostTrans(a: Ratio, b: Ratio, c: Ratio)
    requires a.den > 0 && b.den > 0 && c.den > 0
    requires AtMost(a, b) && AtMost(b, c)
    ensures AtMost(a, c)
  {
    MulLe(a.num * b.den, b.num * a.den, c.den);
    MulLe(b.num * c.den, c.num * b.den, a.den);
    assert a.num * c.den * b.den == a.num * b.den * c.den;
    assert b.num * a.den * c.den == b.num * c.den * a.den;
    assert c.num * b.den * a.den == c.num * a.den * b.den;
    MulCancel(a.num * c.den, c.num * a.den, b.den);
  }

  lemma MulLt(x: nat, y: nat, k: nat)
    requires x < y && k > 0
    ensures x * k < y * k
  {
  }

  /** `Below` is transitive on ratios with positive denominators. */
  lemma {:induction false} BelowTrans(a: Ratio, b: Ratio, c: Ratio)
    requires a.den > 0 && b.den > 0 && c.den > 0
    requires Below(a, b) && Below(b, c)
    ensures Below(a, c)
  {
    MulLt(a.num * b.den, b.num * a.den, c.den);
    MulLt(b.num * c.den, c.num * b.den, a.den);
    assert a.num * c.den * b.den == a.num * b.den * c.den;
    assert b.num * a.den * c.den == b.num * c.den * a.den;
    assert c.num * b.den * a.den == c.num * a.den * b.den;
    if c.num * a.den <= a.num * c.den {
      MulLe(c.num * a.den, a.num * c.den, b.den);
    }
  }

  /** A score of at most the total is a share of at most 100%. */
  lemma FractionAtMostWhole(score: nat, total: nat)
    requires score <= total
    ensures AtMost(Fraction(score, total), Ratio(1, 1))
  {
  }
}
