/**
  `RainDrop`: background rain streaks, recycled forever and never removed.
 */
module Rain {
  import opened P5

  datatype Drop = Drop(x: real, y: real, len: real, spd: real, a: real)

  /** The five `random` draws of one `reset`, in source order. */
  datatype RainDraw = RainDraw(x: Uniform, y: Uniform, len: Uniform, spd: Uniform, a: Uniform)

  const RainCount: nat := 160
  const Slant: real := 0.35
  const WrapX: real := Width + 20.0
  const WrapTo: real := -20.0

  /** `reset(first)`: a new streak anywhere across the canvas; on the first
      call anywhere down it, later just above the top edge. */
  function Reset(first: bool, d: RainDraw): (r: Drop)
    ensures 0.0 <= r.x < Width
    ensures first ==> 0.0 <= r.y < Height
    ensures !first ==> -200.0 <= r.y < -20.0
    ensures 8.0 <= r.len < 16.0 && 3.2 <= r.spd < 6.2 && 22.0 <= r.a < 60.0
  {
    Drop(RandomBelow(d.x, Width),
         if first then RandomBelow(d.y, Height) else Random(d.y, -200.0, -20.0),
         Random(d.len, 8.0, 16.0),
         Random(d.spd, 3.2, 6.2),
         Random(d.a, 22.0, 60.0))
  }

  /** Where a drop may be between frames, with the ranges `reset` draws
      from. */
  predicate RainInv(d: Drop) {
    && WrapTo <= d.x <= WrapX
    && -200.0 <= d.y <= Height
    && 8.0 <= d.len < 16.0 && 3.2 <= d.spd < 6.2 && 22.0 <= d.a < 60.0
  }

  /** `RainDrop.update()`: fall and drift right; a drop below the canvas is
      reset above it (with a fresh x), and one past the right margin wraps to
      the left. */
  function RainStep(u: RainDraw, d: Drop): (r: Drop)
    ensures d.y + d.spd > Height ==>
      -200.0 <= r.y < -20.0 && r.len == Reset(false, u).len &&
      r.spd == Reset(false, u).spd && r.a == Reset(false, u).a
    ensures d.y + d.spd <= Height ==>
      r.y == d.y + d.spd && r.len == d.len && r.spd == d.spd && r.a == d.a
    ensures d.y + d.spd <= Height && d.x + Slant <= WrapX ==> r.x == d.x + Slant
    ensures d.y + d.spd <= Height && d.x + Slant > WrapX ==> r.x == WrapTo
    ensures d.y + d.spd > Height ==> r.x == Reset(false, u).x
    ensures RainInv(d) ==> RainInv(r)
    ensures 0.0 < d.spd ==> r.y > d.y || r.y < -20.0
  {
    var moved := d.(y := d.y + d.spd, x := d.x + Slant);
    var kept := if moved.y > Height then Reset(false, u) else moved;
    if kept.x > WrapX then kept.(x := WrapTo) else kept
  }

  /** `new RainDrop()`. */
  function NewDrop(u: RainDraw): (r: Drop)
    ensures RainInv(r)
    ensures 0.0 <= r.y < Height
  {
    Reset(true, u)
  }

  /** The `for (let d of rain) d.update()` loop: every drop is updated in
      place with its own draws; none is added or removed. */
  function RainAll(draw: int -> RainDraw, rain: seq<Drop>): (r: seq<Drop>)
    ensures |r| == |rain|
    ensures forall i :: 0 <= i < |rain| ==> r[i] == RainStep(draw(i), rain[i])
    ensures (forall i :: 0 <= i < |rain| ==> RainInv(rain[i])) ==>
      forall i :: 0 <= i < |r| ==> RainInv(r[i])
  {
    seq(|rain|, i requires 0 <= i < |rain| => RainStep(draw(i), rain[i]))
  }

  /** `setup`'s 160 `new RainDrop()` calls. */
  function InitialRain(draw: int -> RainDraw): (r: seq<Drop>)
    ensures |r| == RainCount
    ensures forall i :: 0 <= i < |r| ==> r[i] == NewDrop(draw(i))
    ensures forall i :: 0 <= i < |r| ==> RainInv(r[i])
  {
    var r := seq(RainCount, i => NewDrop(draw(i)));
    assert forall i :: 0 <= i < |r| ==> RainInv(NewDrop(draw(i)));
    r
  }
}
