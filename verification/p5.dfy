/**
  The small part of the p5.js runtime the sketch's simulation relies on:
  canvas size, `constrain`, `random`, `TWO_PI`, key codes, and the
  host-provided numeric primitives (`sqrt`, `sin`, `cos`, `noise`).

  The primitives are not modelled: they are carried as function values in a
  `Host` record. Nothing about them is assumed by the step functions; lemmas
  that need a true square root say so with `ExactSqrt`.
 */
module P5 {

  /** The canvas created in `setup`: `createCanvas(900, 540)`. */
  const Width: real := 900.0
  const Height: real := 540.0

  /** The floor line / bottom HUD margin, drawn at `height - 60`. */
  const FloorY: real := Height - 60.0

  /** p5's `TWO_PI` (the double closest to 2*pi). */
  const TwoPi: real := 6.283185307179586

  /** Key codes passed to `keyIsDown`. */
  const LeftArrow: int := 37
  const UpArrow: int := 38
  const RightArrow: int := 39
  const DownArrow: int := 40
  const ShiftKey: int := 16
  const KeyA: int := 65
  const KeyD: int := 68
  const KeyS: int := 83
  const KeyW: int := 87

  /** One draw of p5's uniform generator, `random()`, which lies in [0, 1). */
  type Uniform = u: real | 0.0 <= u < 1.0

  /** Host primitives: `Math.sqrt`, `sin`, `cos` and two-argument Perlin `noise`. */
  datatype Host = Host(
    sqrt: real -> real,
    sin: real -> real,
    cos: real -> real,
    noise: (real, real) -> real)

  /** `sqrt` is the true square root: 0 at 0, and the positive root of every
      positive argument. */
  ghost predicate ExactSqrt(sqrt: real -> real) {
    && sqrt(0.0) == 0.0
    && forall x: real :: 0.0 < x ==> 0.0 < sqrt(x) && sqrt(x) * sqrt(x) == x
  }

  function Min(a: real, b: real): real { if a <= b then a else b }
  function Max(a: real, b: real): real { if a >= b then a else b }

  /** p5's `constrain(n, low, high)`, which is `max(min(n, high), low)`. */
  function Constrain(n: real, low: real, high: real): (r: real)
    ensures low <= high ==> low <= r <= high
    ensures low <= n <= high ==> r == n
    ensures n < low ==> r == low
    ensures low <= high < n ==> r == high
  {
    Max(Min(n, high), low)
  }

  /** p5's `random(lo, hi)` for a draw `u`: the bounds are put in increasing
      order, then the draw is scaled into them. */
  function Random(u: Uniform, lo: real, hi: real): (r: real)
    ensures lo < hi ==> lo <= r < hi
    ensures hi < lo ==> hi <= r < lo
    ensures lo == hi ==> r == lo
  {
    if lo > hi then Scaled(u, hi, lo) else Scaled(u, lo, hi)
  }

  /** `u * (b - a) + a`: a draw scaled into [a, b); an empty span leaves `a`. */
  function Scaled(u: Uniform, a: real, b: real): (r: real)
    requires a <= b
    ensures a < b ==> a <= r < b
    ensures a == b ==> r == a
  {
    var span := b - a;
    if span > 0.0 then FractionBelow(u, span); u * span + a else assert span == 0.0; a
  }

  /** p5's one-argument `random(n)` for a draw `u`: `u * n`. */
  function RandomBelow(u: Uniform, n: real): (r: real)
    ensures 0.0 < n ==> 0.0 <= r < n
  {
    if 0.0 < n then FractionBelow(u, n); u * n else u * n
  }

  /** A fraction in [0, 1) of a positive span lies in [0, span). */
  lemma FractionBelow(u: Uniform, span: real)
    requires 0.0 < span
    ensures 0.0 <= u * span < span
  {
    assert (1.0 - u) * span > 0.0;
  }
}
