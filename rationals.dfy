/**
 * Exact rationals in the canonical form `num_rational::Rational32` keeps:
 * a positive denominator and no common factor. A fraction n/d is in that
 * form exactly when d is the least positive q for which (n/d) * q is whole,
 * which is how `IsReduced` states it; two reduced fractions with the same
 * value are then the same pair (`ReducedUnique`), so the structural
 * equality of the model agrees with the value equality of the source.
 */
module Rationals {

  datatype Rational = Rational(numer: int, denom: int)

  /** The value a fraction denotes. */
  function Val(r: Rational): real
  {
    if r.denom == 0 then 0.0 else r.numer as real / r.denom as real
  }

  predicate IsIntegral(x: real) { x.Floor as real == x }

  /** Multiplying x by q gives a whole number. */
  predicate Clears(x: real, q: int) { IsIntegral(x * q as real) }

  predicate IsReduced(r: Rational)
  {
    r.denom >= 1 && forall q :: 1 <= q < r.denom ==> !Clears(Val(r), q)
  }

  /** `Rational32` after normalisation. Integer width is not modelled. */
  type Rat = r: Rational | IsReduced(r) witness Rational(0, 1)

  /** The least q in [from, bound] that clears x. */
  function LeastClearing(x: real, from: int, bound: int): (q: int)
    requires 1 <= from <= bound && Clears(x, bound)
    requires forall q' :: 1 <= q' < from ==> !Clears(x, q')
    ensures from <= q <= bound && Clears(x, q)
    ensures forall q' :: 1 <= q' < q ==> !Clears(x, q')
    decreases bound - from
  {
    if Clears(x, from) then from else LeastClearing(x, from + 1, bound)
  }

  /** `Ratio::new`: the reduced form of n/d, the one reduced fraction with that value. */
  function Normalize(n: int, d: int): (r: Rat)
    requires d != 0
    ensures Val(r) == n as real / d as real
  {
    ReducedFormExists(n, d);
    ReducedIsUnique(n as real / d as real);
    var r: Rat :| Val(r) == n as real / d as real;
    r
  }

  /** Dividing n/d by the least q that clears it gives a reduced fraction with the same value. */
  lemma ReducedFormExists(n: int, d: int)
    requires d != 0
    ensures exists r: Rat :: Val(r) == n as real / d as real
  {
    var x := n as real / d as real;
    var bound := if d < 0 then -d else d;
    ClearsByDenominator(n, d);
    var q := LeastClearing(x, 1, bound);
    var num := (x * q as real).Floor;
    CancelFactor(x, q as real);
    ClearedIsWhole(x, q);
    assert num as real / q as real == x;
    var r: Rat := Rational(num, q);
    assert Val(r) == x;
  }

  lemma ReducedIsUnique(x: real)
    ensures forall a: Rat, b: Rat :: Val(a) == x && Val(b) == x ==> a == b
  {
    forall a: Rat, b: Rat | Val(a) == x && Val(b) == x
      ensures a == b
    {
      ReducedUnique(a, b);
    }
  }

  /** Two reduced fractions with the same value are the same fraction. */
  lemma ReducedUnique(a: Rat, b: Rat)
    requires Val(a) == Val(b)
    ensures a == b
  {
    ClearsOwnDenom(a);
    ClearsOwnDenom(b);
    DenomIsLeast(a, b.denom);
    DenomIsLeast(b, a.denom);
  }

  lemma ClearsOwnDenom(a: Rat)
    ensures Clears(Val(a), a.denom)
  {
    ClearsByDenominator(a.numer, a.denom);
  }

  /** n/d times |d| is the whole number ±n. */
  lemma ClearsByDenominator(n: int, d: int)
    requires d != 0
    ensures Clears(n as real / d as real, if d < 0 then -d else d)
  {
    var x := n as real / d as real;
    CancelFactor(n as real, d as real);
    assert x * d as real == n as real;
    var bound := if d < 0 then -d else d;
    var whole := if d < 0 then -n else n;
    assert x * bound as real == whole as real;
    WholeIsIntegral(whole);
    assert IsIntegral(x * bound as real);
    assert Clears(x, bound);
  }

  lemma ClearedIsWhole(x: real, q: int)
    requires Clears(x, q)
    ensures (x * q as real).Floor as real == x * q as real
  {
  }

  lemma WholeIsIntegral(i: int)
    ensures IsIntegral(i as real)
  {
  }

  /** No positive q below the denominator clears the value. */
  lemma DenomIsLeast(a: Rat, q: int)
    requires 1 <= q && Clears(Val(a), q)
    ensures a.denom <= q
  {
    assert !(q < a.denom) || !Clears(Val(a), q);
  }

  lemma CancelFactor(x: real, q: real)
    requires q != 0.0
    ensures (x * q) / q == x
    ensures x / q * q == x
  {
  }

  /** n1/d1 op n2/d2 written over the common denominator d1*d2. */
  lemma CommonDenominator(n1: int, d1: int, n2: int, d2: int)
    requires d1 > 0 && d2 > 0
    ensures (n1 * d2 + n2 * d1) as real / (d1 * d2) as real == n1 as real / d1 as real + n2 as real / d2 as real
    ensures (n1 * d2 - n2 * d1) as real / (d1 * d2) as real == n1 as real / d1 as real - n2 as real / d2 as real
    ensures (n1 * n2) as real / (d1 * d2) as real == (n1 as real / d1 as real) * (n2 as real / d2 as real)
  {
    var a, b, c, d := n1 as real, d1 as real, n2 as real, d2 as real;
    assert (d1 * d2) as real == b * d;
    assert (n1 * d2) as real == a * d;
    assert (n2 * d1) as real == c * b;
    assert (n1 * n2) as real == a * c;
    assert (a * d + c * b) / (b * d) == a / b + c / d;
    assert (a * d - c * b) / (b * d) == a / b - c / d;
    assert (a * c) / (b * d) == (a / b) * (c / d);
  }

  lemma Quotient(n1: int, d1: int, n2: int, d2: int)
    requires d1 > 0 && d2 > 0 && n2 != 0
    ensures (n1 * d2) as real / (d1 * n2) as real == (n1 as real / d1 as real) / (n2 as real / d2 as real)
  {
    var a, b, c, d := n1 as real, d1 as real, n2 as real, d2 as real;
    assert (n1 * d2) as real == a * d;
    assert (d1 * n2) as real == b * c;
    assert (a * d) / (b * c) == (a / b) / (c / d);
  }

  function FromInteger(i: int): (r: Rat)
    ensures Val(r) == i as real
  {
    Rational(i, 1)
  }

  function Zero(): Rat { FromInteger(0) }

  function One(): Rat { FromInteger(1) }

  function New(n: int, d: int): (r: Rat)
    requires d != 0
    ensures Val(r) == n as real / d as real
  {
    Normalize(n, d)
  }

  function Add(a: Rat, b: Rat): (r: Rat)
    ensures Val(r) == Val(a) + Val(b)
  {
    CommonDenominator(a.numer, a.denom, b.numer, b.denom);
    Normalize(a.numer * b.denom + b.numer * a.denom, a.denom * b.denom)
  }

  function Sub(a: Rat, b: Rat): (r: Rat)
    ensures Val(r) == Val(a) - Val(b)
  {
    CommonDenominator(a.numer, a.denom, b.numer, b.denom);
    Normalize(a.numer * b.denom - b.numer * a.denom, a.denom * b.denom)
  }

  function Mul(a: Rat, b: Rat): (r: Rat)
    ensures Val(r) == Val(a) * Val(b)
  {
    CommonDenominator(a.numer, a.denom, b.numer, b.denom);
    Normalize(a.numer * b.numer, a.denom * b.denom)
  }

  /** Division panics on a zero divisor in the source; callers never divide by zero. */
  function Div(a: Rat, b: Rat): (r: Rat)
    requires b.numer != 0
    ensures Val(r) == Val(a) / Val(b)
  {
    Quotient(a.numer, a.denom, b.numer, b.denom);
    Normalize(a.numer * b.denom, a.denom * b.numer)
  }

  /** `Ratio::is_integer`: the denominator is one. */
  predicate IsInteger(r: Rat) { r.denom == 1 }

  /** Rust's `/` on integers, which rounds toward zero. */
  function TruncDiv(n: int, d: int): int
    requires d > 0
  {
    if n >= 0 then n / d else -((-n) / d)
  }

  /** `Ratio::to_integer`: the value rounded toward zero. */
  function Trunc(r: Rat): (t: int)
    ensures r.numer >= 0 ==> 0 <= t && t * r.denom <= r.numer < (t + 1) * r.denom
    ensures r.numer < 0 ==> t <= 0 && (t - 1) * r.denom < r.numer <= t * r.denom
  {
    TruncDiv(r.numer, r.denom)
  }

  /** `Ratio::fract`: the value minus its truncation. */
  function Fract(r: Rat): (f: Rat)
    ensures Val(f) == Val(r) - Trunc(r) as real
  {
    Sub(r, FromInteger(Trunc(r)))
  }

  /** A reduced fraction is an integer exactly when its value is whole. */
  lemma IsIntegerIff(r: Rat)
    ensures IsInteger(r) <==> IsIntegral(Val(r))
  {
    if IsInteger(r) {
      WholeIsIntegral(r.numer);
    } else if IsIntegral(Val(r)) {
      assert Val(r) * 1 as real == Val(r);
      DenomIsLeast(r, 1);
    }
  }

  lemma AddAssociative(a: Rat, b: Rat, c: Rat)
    ensures Add(Add(a, b), c) == Add(a, Add(b, c))
  {
    ReducedUnique(Add(Add(a, b), c), Add(a, Add(b, c)));
  }

  lemma AddZero(a: Rat)
    ensures Add(a, Zero()) == a && Add(Zero(), a) == a
  {
    ReducedUnique(Add(a, Zero()), a);
    ReducedUnique(Add(Zero(), a), a);
  }

  lemma MulOne(a: Rat)
    ensures Mul(a, One()) == a
  {
    ReducedUnique(Mul(a, One()), a);
  }

  /** The sign of a reduced fraction is that of its numerator, and it is below one exactly when numer < denom. */
  lemma ValSign(r: Rat)
    ensures Val(r) > 0.0 <==> r.numer > 0
    ensures Val(r) == 0.0 <==> r.numer == 0
    ensures Val(r) < 1.0 <==> r.numer < r.denom
  {
    var n, d := r.numer as real, r.denom as real;
    assert Val(r) * d == n;
  }

  /** For a non-negative value, the truncation is the whole part: w <= v < w + 1. */
  lemma TruncSplit(r: Rat)
    requires r.numer >= 0
    ensures Trunc(r) >= 0
    ensures Trunc(r) as real <= Val(r) < Trunc(r) as real + 1.0
  {
    var n, d := r.numer, r.denom;
    var w, m := n / d, n % d;
    assert n == w * d + m && 0 <= m < d;
    assert n as real == w as real * d as real + m as real;
    assert Val(r) == w as real + m as real / d as real;
    assert m as real / d as real < 1.0;
  }
}
