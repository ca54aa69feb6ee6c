// Facts about real multiplication and division that the solver does not
// find on its own; the geometry and smoothing proofs use them.

module RealFacts {

  /** The larger and the smaller of two reals. */
  function RealMax(a: real, b: real): real { if a >= b then a else b }
  function RealMin(a: real, b: real): real { if a <= b then a else b }
  function Abs(x: real): real { if x < 0.0 then -x else x }

  /** Multiplying by a non-negative factor keeps the order. */
  lemma MulMonotone(a: real, b: real, c: real)
    requires a <= b && c >= 0.0
    ensures a * c <= b * c
  {
    assert b * c - a * c == (b - a) * c;
  }

  /** Multiplying by a positive factor keeps the strict order. */
  lemma MulStrict(a: real, b: real, c: real)
    requires a < b && c > 0.0
    ensures a * c < b * c
  {
    assert b * c - a * c == (b - a) * c;
  }

  /** A non-negative length scaled by a fraction stays between zero and itself. */
  lemma ScaleDown(d: real, factor: real)
    requires 0.0 <= factor <= 1.0 && 0.0 <= d
    ensures 0.0 <= d * factor <= d
  {
    MulMonotone(factor, 1.0, d);
    MulMonotone(0.0, factor, d);
  }

  lemma Negate(d: real, factor: real)
    ensures (-d) * factor == -(d * factor)
  {
  }

  /** A square is never negative. */
  lemma SquareNonNegative(d: real)
    ensures d * d >= 0.0
    ensures d == 0.0 ==> d * d == 0.0
  {
    if d < 0.0 {
      assert d * d == (-d) * (-d);
      MulMonotone(0.0, -d, -d);
    } else {
      MulMonotone(0.0, d, d);
    }
  }

  /** The quotient of two positive numbers is positive and undoes the multiplication. */
  lemma DivIsPositive(a: real, b: real)
    requires a > 0.0 && b > 0.0
    ensures a / b > 0.0 && (a / b) * b == a
  {
  }

  /** For a positive span, `d / span` is in [0,1] exactly when `d` is in [0, span]. */
  lemma UnitInterval(d: real, span: real)
    requires span > 0.0
    ensures (0.0 <= d / span <= 1.0) <==> (0.0 <= d <= span)
  {
    var r := d / span;
    assert r * span == d;
    if r < 0.0 { MulStrict(r, 0.0, span); }
    if r > 1.0 { MulStrict(1.0, r, span); }
    if 0.0 <= r <= 1.0 { MulMonotone(r, 1.0, span); MulMonotone(0.0, r, span); }
  }

  /** A fraction in [0,1] of a non-negative span, scaled by a non-negative size, stays within the scaled span. */
  lemma FractionOfSpan(rel: real, span: real, size: real)
    requires 0.0 <= rel <= 1.0 && span >= 0.0 && size >= 0.0
    ensures 0.0 <= rel * span * size <= span * size
  {
    MulMonotone(rel, 1.0, span);
    MulMonotone(0.0, rel, span);
    MulMonotone(rel * span, span, size);
    MulMonotone(0.0, rel * span, size);
  }

  /** A quotient known as a product: `a / w == c` when `a == c * w`. */
  lemma DivExact(a: real, w: real, c: real)
    requires w != 0.0 && a == c * w
    ensures a / w == c
  {
  }

  lemma Distribute(a: real, c: real, k: real)
    ensures (a + c) * k == a * k + c * k
  {
  }

  /** Dividing and multiplying back by the same non-zero number gives the number again. */
  lemma DivCancel(a: real, w: real)
    requires w != 0.0
    ensures (a / w) * w == a
  {
  }
}
