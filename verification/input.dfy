/**
  `inputVector`: the movement direction read from the keyboard.
 */
module Input {
  import opened P5
  import opened Vector

  /** The four direction groups: arrows or WASD. */
  predicate Left(keyIsDown: int -> bool) { keyIsDown(LeftArrow) || keyIsDown(KeyA) }
  predicate Right(keyIsDown: int -> bool) { keyIsDown(RightArrow) || keyIsDown(KeyD) }
  predicate Up(keyIsDown: int -> bool) { keyIsDown(UpArrow) || keyIsDown(KeyW) }
  predicate Down(keyIsDown: int -> bool) { keyIsDown(DownArrow) || keyIsDown(KeyS) }

  /** The raw key sum: -1 for left/up, +1 for right/down, per axis. */
  function RawInput(keyIsDown: int -> bool): Vec {
    var vx := (if Left(keyIsDown) then -1.0 else 0.0) + (if Right(keyIsDown) then 1.0 else 0.0);
    var vy := (if Up(keyIsDown) then -1.0 else 0.0) + (if Down(keyIsDown) then 1.0 else 0.0);
    Vec(vx, vy)
  }

  /** `inputVector()`: the raw key sum, normalized when its length is positive.
      Opposite keys cancel; on each axis the sign is the side that is held
      alone. */
  function InputVector(sqrt: real -> real, keyIsDown: int -> bool): (v: Vec)
    ensures v.x < 0.0 <==> Left(keyIsDown) && !Right(keyIsDown)
    ensures v.x > 0.0 <==> Right(keyIsDown) && !Left(keyIsDown)
    ensures v.y < 0.0 <==> Up(keyIsDown) && !Down(keyIsDown)
    ensures v.y > 0.0 <==> Down(keyIsDown) && !Up(keyIsDown)
  {
    var raw := RawInput(keyIsDown);
    if Mag(sqrt, raw) > 0.0 then
      var v := Normalize(sqrt, raw);
      SameSign(v.x, Mag(sqrt, raw), raw.x);
      SameSign(v.y, Mag(sqrt, raw), raw.y);
      v
    else raw
  }

  /** A positive factor does not change the sign. */
  lemma SameSign(a: real, m: real, b: real)
    requires 0.0 < m && a * m == b
    ensures (a < 0.0 <==> b < 0.0) && (a > 0.0 <==> b > 0.0)
  {
    if a < 0.0 { assert (-a) * m > 0.0; }
    if a > 0.0 { assert a * m > 0.0; }
    if a == 0.0 { assert a * m == 0.0; }
  }

  /** With a true square root, the input is the zero vector exactly when
      the keys cancel on both axes, and a unit vector otherwise. */
  lemma InputUnit(sqrt: real -> real, keyIsDown: int -> bool)
    requires ExactSqrt(sqrt)
    ensures InputVector(sqrt, keyIsDown) == Zero <==>
      Left(keyIsDown) == Right(keyIsDown) && Up(keyIsDown) == Down(keyIsDown)
    ensures InputVector(sqrt, keyIsDown) != Zero ==>
      MagSq(InputVector(sqrt, keyIsDown)) == 1.0
  {
    var raw := RawInput(keyIsDown);
    if raw != Zero {
      RawLength(keyIsDown);
      NormalizeUnit(sqrt, raw);
    }
  }

  /** A non-zero raw key sum has squared length 1 or 2. */
  lemma RawLength(keyIsDown: int -> bool)
    requires RawInput(keyIsDown) != Zero
    ensures MagSq(RawInput(keyIsDown)) == 1.0 || MagSq(RawInput(keyIsDown)) == 2.0
  {
  }
}
