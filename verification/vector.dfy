/**
  The `p5.Vector` operations the simulation uses, over exact reals. Lengths
  go through the host's `sqrt`, so results about lengths assume
  `ExactSqrt`; everything else holds for any host.
 */
module Vector {
  import opened P5

  datatype Vec = Vec(x: real, y: real)

  const Zero: Vec := Vec(0.0, 0.0)

  function Add(a: Vec, b: Vec): Vec { Vec(a.x + b.x, a.y + b.y) }
  function Sub(a: Vec, b: Vec): Vec { Vec(a.x - b.x, a.y - b.y) }

  /** `mult(k)`. */
  function Scale(v: Vec, k: real): Vec { Vec(v.x * k, v.y * k) }

  /** `div(n)`: p5 leaves the vector unchanged when asked to divide by 0. */
  function DivBy(v: Vec, n: real): Vec {
    if n == 0.0 then v else Vec(v.x / n, v.y / n)
  }

  /** `magSq()`. */
  function MagSq(v: Vec): real { v.x * v.x + v.y * v.y }

  /** `mag()`. */
  function Mag(sqrt: real -> real, v: Vec): real { sqrt(MagSq(v)) }

  /** `dist(a.x, a.y, b.x, b.y)`: the length of `b - a`. */
  function Dist(sqrt: real -> real, a: Vec, b: Vec): real { Mag(sqrt, Sub(b, a)) }

  /** `p5.Vector.fromAngle(a)`: the unit vector at angle `a`. */
  function FromAngle(host: Host, a: real): Vec { Vec(host.cos(a), host.sin(a)) }

  /** `normalize()`: divide by the length unless the length is 0. */
  function Normalize(sqrt: real -> real, v: Vec): (r: Vec)
    ensures Mag(sqrt, v) == 0.0 ==> r == v
    ensures Mag(sqrt, v) != 0.0 ==>
      r.x * Mag(sqrt, v) == v.x && r.y * Mag(sqrt, v) == v.y
  {
    var len := Mag(sqrt, v);
    if len != 0.0 then DivBy(v, len) else v
  }

  /** `limit(max)`: when the squared length exceeds `max * max`, rescale the
      vector to length `max`; otherwise leave it alone. */
  function Limit(sqrt: real -> real, v: Vec, max: real): (r: Vec)
    ensures MagSq(v) <= max * max ==> r == v
  {
    var mSq := MagSq(v);
    if mSq > max * max then Scale(DivBy(v, sqrt(mSq)), max) else v
  }

  // ---- lengths under a true square root ----

  lemma MulMono(k: real, a: real, b: real)
    requires 0.0 <= k && a <= b
    ensures k * a <= k * b
  {
  }

  lemma StrictMono(k: real, a: real, b: real)
    requires 0.0 < k && a < b
    ensures k * a < k * b
  {
  }

  /** `0 < d < a` gives `d * d < a * a`. */
  lemma SquareGrows(a: real, d: real)
    requires 0.0 < d < a
    ensures d * d < a * a
  {
    StrictMono(a, d, a);
    StrictMono(d, d, a);
    assert d * a == a * d;
  }

  lemma Distrib(t: real, a: real, b: real)
    ensures t * (a - b) == t * a - t * b
  {
  }

  lemma SquareNonNeg(a: real)
    ensures 0.0 <= a * a
  {
    if a >= 0.0 { MulMono(a, 0.0, a); } else { MulMono(-a, a, 0.0); }
  }

  /** Scaling by `k` scales the squared length by `k * k`. */
  lemma ScaleMagSq(v: Vec, k: real)
    ensures MagSq(Scale(v, k)) == k * k * MagSq(v)
  {
  }

  lemma InverseSquare(m: real)
    requires m != 0.0
    ensures (1.0 / m) * (1.0 / m) * (m * m) == 1.0
  {
    var i := 1.0 / m;
    assert i * m == 1.0;
    assert i * i * (m * m) == (i * m) * (i * m);
  }

  /** Dividing a vector of squared length `m * m` by `m` gives a unit vector. */
  lemma DivByLength(v: Vec, m: real)
    requires m != 0.0 && m * m == MagSq(v)
    ensures MagSq(DivBy(v, m)) == 1.0
  {
    assert DivBy(v, m) == Scale(v, 1.0 / m);
    ScaleMagSq(v, 1.0 / m);
    InverseSquare(m);
  }

  /** With a true square root, normalizing a vector of non-zero length gives
      a unit vector. */
  lemma NormalizeUnit(sqrt: real -> real, v: Vec)
    requires ExactSqrt(sqrt) && Mag(sqrt, v) != 0.0
    ensures MagSq(Normalize(sqrt, v)) == 1.0
  {
    SquareNonNeg(v.x);
    SquareNonNeg(v.y);
    DivByLength(v, Mag(sqrt, v));
  }

  /** With a true square root and a non-negative bound, `limit` never leaves
      a squared length above `max * max`, and a vector it rescales comes out
      at exactly that length. */
  lemma LimitBound(sqrt: real -> real, v: Vec, max: real)
    requires ExactSqrt(sqrt) && 0.0 <= max
    ensures MagSq(Limit(sqrt, v, max)) <= max * max
    ensures MagSq(v) > max * max ==> MagSq(Limit(sqrt, v, max)) == max * max
  {
    SquareNonNeg(max);
    if MagSq(v) > max * max {
      DivByLength(v, Mag(sqrt, v));
      ScaleMagSq(DivBy(v, Mag(sqrt, v)), max);
    }
  }
}
