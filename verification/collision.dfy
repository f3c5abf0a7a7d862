/**
  Circle-versus-rectangle push-out (`resolveCircleRect`) and the pass over
  the shelf list that `SadBlob.update` makes with it.
 */
module Collision {
  import opened P5
  import opened Vector

  /** A `RectObstacle`: top-left corner, width and height. */
  datatype Rect = Rect(x: real, y: real, w: real, h: real)

  /** `p` lies in the closed rectangle. */
  predicate InRect(p: Vec, r: Rect) {
    r.x <= p.x <= r.x + r.w && r.y <= p.y <= r.y + r.h
  }

  /** The point of the rectangle nearest to `c`: each coordinate of `c`
      constrained to the rectangle's extent. */
  function Closest(c: Vec, r: Rect): (q: Vec)
    ensures 0.0 <= r.w && 0.0 <= r.h ==> InRect(q, r)
    ensures InRect(c, r) ==> q == c
  {
    Vec(Constrain(c.x, r.x, r.x + r.w), Constrain(c.y, r.y, r.y + r.h))
  }

  /** The offset from the nearest point of the rectangle to the centre. */
  function Offset(c: Vec, r: Rect): Vec { Sub(c, Closest(c, r)) }

  /** A circle of radius `cR` at `c` overlaps the rectangle: the nearest point
      is strictly closer than `cR`. */
  predicate Overlaps(c: Vec, cR: real, r: Rect) {
    MagSq(Offset(c, r)) < cR * cR
  }

  /** What `resolveCircleRect` leaves behind: the centre it writes back and
      the boolean it returns. */
  datatype Push = Push(pos: Vec, hit: bool)

  /** `resolveCircleRect(c, cR, r.x, r.y, r.w, r.h)`: on overlap the centre
      is pushed out along the offset; otherwise nothing happens. */
  function ResolveCircleRect(sqrt: real -> real, c: Vec, cR: real, r: Rect): (res: Push)
    ensures res.hit <==> Overlaps(c, cR, r)
    ensures !res.hit ==> res.pos == c
    ensures res.hit && Mag(sqrt, Offset(c, r)) == 0.0 ==>
      res.pos == Vec(c.x + (cR - 1.0), c.y)
  {
    var off := Offset(c, r);
    if MagSq(off) < cR * cR then Push(PushOut(sqrt, c, cR, off), true) else Push(c, false)
  }

  /** The overlap branch: with `d` the host's length of `off`, the centre moves
      by `off / d * (cR - d)`, which puts it `cR` from the nearest point. When
      the host reports `d == 0` the code substitutes the direction (1, 0) and
      `d = 1`, so the centre moves by `cR - 1` along +x. */
  function PushOut(sqrt: real -> real, c: Vec, cR: real, off: Vec): (p: Vec)
    ensures Mag(sqrt, off) == 0.0 ==> p == Vec(c.x + (cR - 1.0), c.y)
    ensures Mag(sqrt, off) != 0.0 ==>
      p == Add(c, Scale(DivBy(off, Mag(sqrt, off)), cR - Mag(sqrt, off)))
  {
    var d0 := Mag(sqrt, off);
    var dir := if d0 == 0.0 then Vec(1.0, 0.0) else off;
    var d := if d0 == 0.0 then 1.0 else d0;
    var overlap := cR - d;
    Vec(c.x + (dir.x / d) * overlap, c.y + (dir.y / d) * overlap)
  }

  // ---- the non-degenerate push ----

  /** A coordinate of a vector of length `d` is at most `d` in size. */
  lemma CoordWithinLength(a: real, b: real, d: real)
    requires 0.0 < d && d * d == a * a + b * b
    ensures -d <= a <= d
  {
    SquareNonNeg(b);
    if a > d {
      SquareGrows(a, d);
      assert false;
    }
    if a < -d {
      assert (-a) * (-a) == a * a;
      SquareGrows(-a, d);
      assert false;
    }
  }

  /** A length whose square is below `cR * cR` is below `cR`. */
  lemma BelowRadius(d: real, cR: real)
    requires 0.0 < d && 0.0 < cR && d * d < cR * cR
    ensures d < cR
  {
    if d >= cR {
      MulMono(d, cR, d);
      MulMono(cR, cR, d);
      assert false;
    }
  }

  /** A coordinate of a vector whose squared length is below `R * R` is
      below `R`. */
  lemma CoordBelowRadius(a: real, b: real, R: real)
    requires 0.0 < R && a * a + b * b < R * R
    ensures a < R
  {
    SquareNonNeg(b);
    if a >= R {
      MulMono(a, R, a);
      MulMono(R, R, a);
      assert false;
    }
  }

  /** One coordinate of the push `c + off / d * (cR - d)` with
      `0 < d < cR` and `|off| <= d`: the centre ends at `q + t * cR` for
      `t = off / d` in [-1, 1], so it moves away from the nearest point `q`
      and ends no more than `cR` from it. */
  lemma PushCoord(cx: real, qx: real, offx: real, d: real, cR: real, px: real)
    requires 0.0 < d < cR && offx == cx - qx && -d <= offx <= d
    requires px == cx + (offx / d) * (cR - d)
    ensures offx == 0.0 ==> px == cx
    ensures offx > 0.0 ==> qx < px <= qx + cR
    ensures offx < 0.0 ==> qx - cR <= px < qx
  {
    var t := offx / d;
    assert t * d == offx;
    Distrib(t, cR, d);
    assert px == qx + t * cR;
    if offx > 0.0 {
      PositiveRatio(t, d, offx);
      MulMono(cR, t, 1.0);
      StrictMono(cR, 0.0, t);
    } else if offx < 0.0 {
      PositiveRatio(-t, d, -offx);
      MulMono(cR, -t, 1.0);
      StrictMono(cR, 0.0, -t);
    }
  }

  /** `t * d == a` with `0 < a <= d` puts `t` in (0, 1]. */
  lemma PositiveRatio(t: real, d: real, a: real)
    requires 0.0 < d && 0.0 < a <= d && t * d == a
    ensures 0.0 < t <= 1.0
  {
    if t <= 0.0 {
      MulMono(d, t, 0.0);
      assert false;
    }
    if t > 1.0 {
      StrictMono(d, 1.0, t);
      assert false;
    }
  }

  /** With a true square root, an overlapping offset of non-zero length
      has length in (0, cR), and each of its coordinates is at most that
      length in size. */
  lemma OffsetLength(sqrt: real -> real, off: Vec, cR: real)
    requires ExactSqrt(sqrt) && 0.0 < cR && MagSq(off) < cR * cR && Mag(sqrt, off) != 0.0
    ensures 0.0 < Mag(sqrt, off) < cR
    ensures -Mag(sqrt, off) <= off.x <= Mag(sqrt, off) && -Mag(sqrt, off) <= off.y <= Mag(sqrt, off)
  {
    var d := Mag(sqrt, off);
    SquareNonNeg(off.x);
    SquareNonNeg(off.y);
    assert 0.0 < d && d * d == MagSq(off);
    BelowRadius(d, cR);
    CoordWithinLength(off.x, off.y, d);
    CoordWithinLength(off.y, off.x, d);
  }

  /** The push moves the centre away from `q` along each axis, by at most `cR`
      past it, when `off = c - q` has length `d` in (0, cR). */
  lemma PushOutAway(sqrt: real -> real, c: Vec, cR: real, q: Vec)
    requires var off := Sub(c, q); var d := Mag(sqrt, off);
      0.0 < d < cR && -d <= off.x <= d && -d <= off.y <= d
    ensures var p := PushOut(sqrt, c, cR, Sub(c, q));
      && (c.x == q.x ==> p.x == c.x) && (c.x > q.x ==> q.x < p.x <= q.x + cR)
      && (c.x < q.x ==> q.x - cR <= p.x < q.x)
      && (c.y == q.y ==> p.y == c.y) && (c.y > q.y ==> q.y < p.y <= q.y + cR)
      && (c.y < q.y ==> q.y - cR <= p.y < q.y)
  {
    var off := Sub(c, q);
    var d := Mag(sqrt, off);
    var p := PushOut(sqrt, c, cR, off);
    PushCoord(c.x, q.x, off.x, d, cR, p.x);
    PushCoord(c.y, q.y, off.y, d, cR, p.y);
  }

  /** A point moved away from its nearest point `q` of the rectangle, along
      each axis where it was off the rectangle, keeps `q` as its nearest
      point. */
  lemma NearestKept(c: Vec, p: Vec, r: Rect)
    requires var q := Closest(c, r);
      && (c.x == q.x ==> p.x == c.x) && (c.x > q.x ==> q.x < p.x) && (c.x < q.x ==> p.x < q.x)
      && (c.y == q.y ==> p.y == c.y) && (c.y > q.y ==> q.y < p.y) && (c.y < q.y ==> p.y < q.y)
    ensures Closest(p, r) == Closest(c, r)
  {
  }

  /** With a true square root, a push that is not degenerate moves the centre
      away from the nearest point of the rectangle, coordinate by coordinate,
      and leaves it no more than `cR` from that point on each axis; the nearest
      point stays the same. */
  lemma PushAway(sqrt: real -> real, c: Vec, cR: real, r: Rect)
    requires ExactSqrt(sqrt) && 0.0 < cR && Overlaps(c, cR, r) && Mag(sqrt, Offset(c, r)) != 0.0
    ensures var p := ResolveCircleRect(sqrt, c, cR, r).pos; var q := Closest(c, r);
      && (c.x == q.x ==> p.x == c.x) && (c.x > q.x ==> q.x < p.x <= q.x + cR)
      && (c.x < q.x ==> q.x - cR <= p.x < q.x)
      && (c.y == q.y ==> p.y == c.y) && (c.y > q.y ==> q.y < p.y <= q.y + cR)
      && (c.y < q.y ==> q.y - cR <= p.y < q.y)
      && Closest(p, r) == q
  {
    var q := Closest(c, r);
    OffsetLength(sqrt, Sub(c, q), cR);
    PushOutAway(sqrt, c, cR, q);
    NearestKept(c, PushOut(sqrt, c, cR, Sub(c, q)), r);
  }

  /** One coordinate of the push, measured from the nearest point `q`: the
      centre ends at `q + off * (cR / d)`. */
  lemma CoordScale(cx: real, qx: real, offx: real, d: real, cR: real, px: real)
    requires 0.0 < d && offx == cx - qx && px == cx + (offx / d) * (cR - d)
    ensures px - qx == offx * (cR / d)
  {
    var t := offx / d;
    assert t * d == offx;
    Distrib(t, cR, d);
    assert px - qx == t * cR;
  }

  /** Scaling a vector of length `d` by `cR / d` gives length `cR`. */
  lemma ScaleRatio(off: Vec, d: real, cR: real)
    requires 0.0 < d && d * d == MagSq(off)
    ensures MagSq(Scale(off, cR / d)) == cR * cR
  {
    var k := cR / d;
    ScaleMagSq(off, k);
    assert k * d == cR;
    assert k * k * (d * d) == (k * d) * (k * d);
  }

  /** With a true square root, a non-zero length squares back to the
      squared length. */
  lemma LengthSquared(sqrt: real -> real, off: Vec)
    requires ExactSqrt(sqrt) && Mag(sqrt, off) != 0.0
    ensures 0.0 < Mag(sqrt, off) && Mag(sqrt, off) * Mag(sqrt, off) == MagSq(off)
  {
    SquareNonNeg(off.x);
    SquareNonNeg(off.y);
  }

  /** The pushed centre, from the offset `off` to the nearest point `q`, is
      `off` scaled by `cR / d`, so it is `cR` from `q`. */
  lemma PushedOffset(sqrt: real -> real, c: Vec, cR: real, q: Vec, off: Vec)
    requires off == Sub(c, q) && 0.0 < Mag(sqrt, off)
    requires Mag(sqrt, off) * Mag(sqrt, off) == MagSq(off)
    ensures MagSq(Sub(PushOut(sqrt, c, cR, off), q)) == cR * cR
  {
    var d := Mag(sqrt, off);
    var p := PushOut(sqrt, c, cR, off);
    CoordScale(c.x, q.x, off.x, d, cR, p.x);
    CoordScale(c.y, q.y, off.y, d, cR, p.y);
    assert Sub(p, q) == Scale(off, cR / d);
    ScaleRatio(off, d, cR);
  }

  /** With a true square root, a push that is not degenerate clears the
      rectangle: the centre ends exactly `cR` from the nearest point, so the
      circle no longer overlaps. */
  lemma PushClears(sqrt: real -> real, c: Vec, cR: real, r: Rect)
    requires ExactSqrt(sqrt) && 0.0 < cR && Overlaps(c, cR, r) && Mag(sqrt, Offset(c, r)) != 0.0
    ensures MagSq(Offset(ResolveCircleRect(sqrt, c, cR, r).pos, r)) == cR * cR
    ensures !Overlaps(ResolveCircleRect(sqrt, c, cR, r).pos, cR, r)
  {
    var q := Closest(c, r);
    var off := Offset(c, r);
    var p := PushOut(sqrt, c, cR, off);
    PushAway(sqrt, c, cR, r);
    LengthSquared(sqrt, off);
    PushedOffset(sqrt, c, cR, q, off);
    assert Offset(p, r) == Sub(p, q);
  }

  /** With a true square root, a circle of radius 34 whose centre is inside
      the rectangle takes the degenerate branch: it is pushed 33 along +x. */
  lemma InsidePush(sqrt: real -> real, c: Vec, r: Rect)
    requires ExactSqrt(sqrt) && InRect(c, r)
    ensures ResolveCircleRect(sqrt, c, 34.0, r) == Push(Vec(c.x + 33.0, c.y), true)
  {
    InsideNoOffset(c, r);
    InsideFacts(sqrt, c, r);
    DegeneratePush(sqrt, c, 34.0, r);
  }

  /** The degenerate push does not clear the rectangle: a radius-34 circle
      whose centre is inside it still overlaps it afterwards, since the centre
      moves only 33 and the nearest point follows it. */
  lemma InsidePushStillOverlaps(sqrt: real -> real, c: Vec, r: Rect)
    requires ExactSqrt(sqrt) && InRect(c, r)
    ensures Overlaps(ResolveCircleRect(sqrt, c, 34.0, r).pos, 34.0, r)
  {
    InsidePush(sqrt, c, r);
    var p := Vec(c.x + 33.0, c.y);
    var dx := Offset(p, r).x;
    assert 0.0 <= dx <= 33.0 && Offset(p, r).y == 0.0;
    MulMono(dx, dx, 33.0);
    MulMono(33.0, dx, 33.0);
    assert dx * dx <= 1089.0;
    assert MagSq(Offset(p, r)) == dx * dx;
  }

  lemma DegeneratePush(sqrt: real -> real, c: Vec, cR: real, r: Rect)
    requires Overlaps(c, cR, r) && Mag(sqrt, Offset(c, r)) == 0.0
    ensures ResolveCircleRect(sqrt, c, cR, r) == Push(Vec(c.x + (cR - 1.0), c.y), true)
  {
  }

  lemma InsideFacts(sqrt: real -> real, c: Vec, r: Rect)
    requires ExactSqrt(sqrt) && Offset(c, r) == Zero
    ensures Overlaps(c, 34.0, r) && Mag(sqrt, Offset(c, r)) == 0.0
  {
  }

  /** A centre inside the rectangle is its own nearest point. */
  lemma InsideNoOffset(c: Vec, r: Rect)
    requires InRect(c, r)
    ensures Offset(c, r) == Zero && MagSq(Offset(c, r)) == 0.0
  {
    assert Offset(c, r) == Zero;
  }

  /** One `resolveCircleRect` call per obstacle, in list order, each seeing
      the centre the previous one left. A centre clear of every obstacle
      comes back unchanged. */
  function CollideAll(sqrt: real -> real, c: Vec, cR: real, rs: seq<Rect>): (p: Vec)
    ensures (forall i :: 0 <= i < |rs| ==> !Overlaps(c, cR, rs[i])) ==> p == c
    decreases |rs|
  {
    if rs == [] then c
    else CollideAll(sqrt, ResolveCircleRect(sqrt, c, cR, rs[0]).pos, cR, rs[1..])
  }

  /** The pass over a concatenated list is the pass over the second part,
      started from where the pass over the first part ended. */
  lemma {:induction false} CollideAllAppend(sqrt: real -> real, c: Vec, cR: real, a: seq<Rect>, b: seq<Rect>)
    ensures CollideAll(sqrt, c, cR, a + b) == CollideAll(sqrt, CollideAll(sqrt, c, cR, a), cR, b)
    decreases |a|
  {
    if a == [] {
      assert a + b == b;
    } else {
      assert (a + b)[1..] == a[1..] + b;
      CollideAllAppend(sqrt, ResolveCircleRect(sqrt, c, cR, a[0]).pos, cR, a[1..], b);
    }
  }
}
