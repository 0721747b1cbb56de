/** Plane geometry shared by the wafer tiler and the reticle packer: real-valued
    vectors and the scalar helpers (absolute value, max, min, ceiling) that
    `wafer` and `reticle` take from numpy. */
module Plane {

  /** A pair `(x, y)`: a position or a size. */
  datatype Vec2 = Vec2(x: real, y: real)

  /** The point reflected through the origin. */
  function Neg(v: Vec2): Vec2 {
    Vec2(-v.x, -v.y)
  }

  function Abs(a: real): real {
    if a < 0.0 then -a else a
  }

  function Max(a: real, b: real): real {
    if a < b then b else a
  }

  function Min(a: real, b: real): real {
    if a < b then a else b
  }

  /** `int(np.ceil(x))` on exact reals: the least integer not below `x`. */
  function Ceil(x: real): (c: int)
    ensures c as real - 1.0 < x <= c as real
  {
    -((-x).Floor)
  }

  /** The quotient of two positive reals is positive. */
  lemma QuotientPositive(a: real, b: real)
    requires a > 0.0 && b > 0.0
    ensures a / b > 0.0
  {
    var q := a / b;
    assert q * b == a;
  }

  /** The quotient of a non-negative and a positive real is non-negative. */
  lemma QuotientNonNegative(a: real, b: real)
    requires a >= 0.0 && b > 0.0
    ensures a / b >= 0.0
  {
    var q := a / b;
    assert q * b == a;
  }

  /** If `|a| <= |b|` then `a*a <= b*b`, strictly so when `|a| < |b|`. */
  lemma SquareMonotone(a: real, b: real)
    requires Abs(a) <= Abs(b)
    ensures a * a <= b * b
    ensures Abs(a) < Abs(b) ==> a * a < b * b
  {
    var x, y := Abs(a), Abs(b);
    var xx, xy, yy := x * x, x * y, y * y;
    assert a * a == xx && b * b == yy;
    assert xx <= xy <= yy;
    if x < y {
      assert xy < yy;
    }
  }

  /** If `a*a <= r*r` with `r >= 0` then `|a| <= r`. */
  lemma SquareBound(a: real, r: real)
    requires 0.0 <= r && a * a <= r * r
    ensures Abs(a) <= r
  {
    if r < Abs(a) {
      SquareMonotone(r, a);
      assert false;
    }
  }

  /** Scaling by a non-negative factor keeps the order of integers. */
  lemma ScaleMonotone(a: int, b: int, p: real)
    requires p >= 0.0
    ensures a <= b ==> a as real * p <= b as real * p
  {
    var d := (b - a) as real;
    var dp := d * p;
    assert b as real * p - a as real * p == dp;
    if a <= b {
      assert dp >= 0.0;
    }
  }

  /** Point `k` of the progression `origin + k * step`. */
  function Step(origin: real, step: real, k: int): real {
    origin + k as real * step
  }

  /** Points of an increasing progression with distinct indices are at least
      one step apart, in index order. */
  lemma StepGap(origin: real, step: real, i: int, j: int)
    requires step > 0.0 && i < j
    ensures Step(origin, step, i) + step <= Step(origin, step, j)
  {
    var d := (j - i) as real;
    var ds := d * step;
    assert Step(origin, step, j) - Step(origin, step, i) == ds;
    assert d >= 1.0;
    assert ds >= step;
  }
}
