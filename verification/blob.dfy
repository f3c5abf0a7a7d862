/**
  `SadBlob`: the player character. One `update` steers, moves, clamps to
  the world, pushes out of the shelves, runs the tear cooldown and updates
  the tears.
 */
module SadBlob {
  import opened P5
  import opened Vector
  import opened Collision
  import opened Input
  import opened Tears

  datatype Blob = Blob(pos: Vec, vel: Vec, noiseSeed: real, tearTimer: int, tears: seq<Tear>)

  const BaseR: real := 34.0
  const MaxSpeed: real := 2.3
  const Accel: real := 0.12
  const Damping: real := 0.9
  const Gravity: Vec := Vec(0.0, 0.035)
  const DriftLength: real := 0.1
  const IdleSpeed: real := 0.35
  const TearCooldown: int := 22
  const SeedStep: real := 0.006

  /** `new SadBlob(x, y)`: at rest, with a noise seed drawn from [0, 1000)
      and no tears. */
  function NewBlob(x: real, y: real, seed: Uniform): (b: Blob)
    ensures b.pos == Vec(x, y) && b.vel == Zero
    ensures 0.0 <= b.noiseSeed < 1000.0
    ensures b.tearTimer == 0 && b.tears == []
  {
    Blob(Vec(x, y), Zero, RandomBelow(seed, 1000.0), 0, [])
  }

  // ---- movement ----

  /** The steering direction: the key input plus a small noise-driven drift,
      normalized when its length is positive. */
  function Desired(host: Host, keyIsDown: int -> bool, noiseSeed: real, frameCount: nat): Vec {
    var input := InputVector(host.sqrt, keyIsDown);
    var driftAngle := host.noise(noiseSeed, (frameCount as real) * 0.01) * TwoPi * 2.0;
    var drift := Scale(FromAngle(host, driftAngle), DriftLength);
    var desired := Add(input, drift);
    if Mag(host.sqrt, desired) > 0.0 then Normalize(host.sqrt, desired) else desired
  }

  /** The new velocity: accelerate towards `desired`, add gravity, damp, and
      limit to the top speed. */
  function NextVelocity(sqrt: real -> real, vel: Vec, desired: Vec): Vec {
    Limit(sqrt, Scale(Add(Add(vel, Scale(desired, Accel)), Gravity), Damping), MaxSpeed)
  }

  /** The world bounds: the blob's disc stays on the canvas and above the
      floor line. */
  predicate InWorld(p: Vec) {
    BaseR <= p.x <= Width - BaseR && BaseR <= p.y <= FloorY - BaseR
  }

  /** The two `constrain` calls after moving. Each coordinate is moved onto
      the nearest edge of the allowed interval and otherwise left alone. */
  function ClampToWorld(p: Vec): (q: Vec)
    ensures InWorld(q)
    ensures BaseR <= p.x <= Width - BaseR ==> q.x == p.x
    ensures BaseR <= p.y <= FloorY - BaseR ==> q.y == p.y
    ensures p.x < BaseR ==> q.x == BaseR
    ensures p.x > Width - BaseR ==> q.x == Width - BaseR
    ensures p.y < BaseR ==> q.y == BaseR
    ensures p.y > FloorY - BaseR ==> q.y == FloorY - BaseR
  {
    Vec(Constrain(p.x, BaseR, Width - BaseR), Constrain(p.y, BaseR, FloorY - BaseR))
  }

  // ---- tear cooldown ----

  /** The cooldown after one update: the new timer and whether a tear is
      spawned. */
  datatype Cooldown = Cooldown(timer: int, spawn: bool)

  /** `tearTimer++`, then spawn and reset when idle and the timer exceeds 22.
      Either way exactly one of "reset to 0 and spawn" and "count up by one"
      happens. */
  function CooldownStep(timer: int, idle: bool): (c: Cooldown)
    ensures c.spawn <==> idle && timer + 1 > TearCooldown
    ensures c.spawn ==> c.timer == 0
    ensures !c.spawn ==> c.timer == timer + 1
  {
    var t := timer + 1;
    if idle && t > TearCooldown then Cooldown(0, true) else Cooldown(t, false)
  }

  /** The cooldown over a run of updates, given each update's idle flag:
      the final timer and the number of tears spawned. */
  function CooldownRun(timer: int, idle: seq<bool>): (c: (int, nat))
    decreases |idle|
  {
    if idle == [] then (timer, 0)
    else
      var c := CooldownStep(timer, idle[0]);
      var rest := CooldownRun(c.timer, idle[1..]);
      (rest.0, rest.1 + if c.spawn then 1 else 0)
  }

  /** While the blob stays idle the cooldown is a counter modulo 23: from a
      timer in [0, 22], `n` idle updates spawn `(timer + n) / 23` tears and
      leave the timer at `(timer + n) % 23`. A timer above 22, left by a long
      stretch of moving, spawns on the first idle update (`CooldownStep`) and
      is back at 0, from where this lemma applies. */
  lemma {:induction false} IdleRun(timer: int, idle: seq<bool>)
    requires 0 <= timer <= TearCooldown
    requires forall i :: 0 <= i < |idle| ==> idle[i]
    ensures CooldownRun(timer, idle).0 == (timer + |idle|) % (TearCooldown + 1)
    ensures CooldownRun(timer, idle).1 == (timer + |idle|) / (TearCooldown + 1)
    decreases |idle|
  {
    if idle != [] {
      var c := CooldownStep(timer, idle[0]);
      IdleRun(c.timer, idle[1..]);
      if timer == TearCooldown {
        assert c.timer == 0 && c.spawn;
        DivModShift(timer, |idle|);
      } else {
        assert c.timer == timer + 1 && !c.spawn;
      }
    }
  }

  /** Adding one period of 23 moves the quotient by one and keeps the
      remainder. */
  lemma DivModShift(timer: int, n: nat)
    requires timer == TearCooldown && 1 <= n
    ensures (timer + n) % (TearCooldown + 1) == (n - 1) % (TearCooldown + 1)
    ensures (timer + n) / (TearCooldown + 1) == (n - 1) / (TearCooldown + 1) + 1
  {
    assert timer + n == (n - 1) + 1 * (TearCooldown + 1);
  }

  /** While the blob moves the timer only counts up: no tear is spawned. */
  lemma {:induction false} MovingRun(timer: int, idle: seq<bool>)
    requires forall i :: 0 <= i < |idle| ==> !idle[i]
    ensures CooldownRun(timer, idle) == (timer + |idle|, 0)
    decreases |idle|
  {
    if idle != [] {
      MovingRun(timer + 1, idle[1..]);
    }
  }

  // ---- one update ----

  /** The tears after one update: every tear is updated and the done ones
      are dropped; when the cooldown spawns, the new tear at `at` is created
      first, updated with the rest, and ends up after the survivors. */
  function NextTears(tears: seq<Tear>, spawn: bool, at: Vec, draw: TearDraw): (r: seq<Tear>)
    ensures forall t :: t in r ==> !t.done
    ensures |r| <= |tears| + (if spawn then 1 else 0)
    ensures !spawn ==> r == DropDone(StepAll(tears))
    ensures spawn ==> r == DropDone(StepAll(tears)) + DropDone([TearStep(NewTear(at.x, at.y, draw))])
    ensures spawn && at.y + 0.4 <= FloorY ==>
      r == DropDone(StepAll(tears)) + [TearStep(NewTear(at.x, at.y, draw))]
  {
    if spawn then
      var t := NewTear(at.x, at.y, draw);
      AppendedTear(tears, t);
      if at.y + 0.4 <= FloorY then FreshTearSurvives(at.x, at.y, draw); DropDone(StepAll(tears + [t]))
      else DropDone(StepAll(tears + [t]))
    else DropDone(StepAll(tears))
  }

  /** `SadBlob.update(obstacles)`. Velocity first, then position (moved,
      clamped, pushed out of each obstacle in order), then the cooldown (idle
      means speed below 0.35), then the tears: updated and filtered. */
  function BlobStep(host: Host, keyIsDown: int -> bool, frameCount: nat,
                    obstacles: seq<Rect>, draw: TearDraw, b: Blob): (r: Blob)
    ensures r.vel == NextVelocity(host.sqrt, b.vel, Desired(host, keyIsDown, b.noiseSeed, frameCount))
    ensures r.pos == CollideAll(host.sqrt, ClampToWorld(Add(b.pos, r.vel)), BaseR, obstacles)
    ensures r.noiseSeed == b.noiseSeed + SeedStep
    ensures Mag(host.sqrt, r.vel) < IdleSpeed && b.tearTimer + 1 > TearCooldown ==>
      r.tearTimer == 0 &&
      r.tears == DropDone(StepAll(b.tears)) + DropDone([TearStep(NewTear(r.pos.x, r.pos.y, draw))])
    ensures Mag(host.sqrt, r.vel) < IdleSpeed && b.tearTimer + 1 > TearCooldown && r.pos.y + 0.4 <= FloorY ==>
      r.tears == DropDone(StepAll(b.tears)) + [TearStep(NewTear(r.pos.x, r.pos.y, draw))]
    ensures !(Mag(host.sqrt, r.vel) < IdleSpeed && b.tearTimer + 1 > TearCooldown) ==>
      r.tearTimer == b.tearTimer + 1 && r.tears == DropDone(StepAll(b.tears))
    ensures forall t :: t in r.tears ==> !t.done
  {
    var vel := NextVelocity(host.sqrt, b.vel, Desired(host, keyIsDown, b.noiseSeed, frameCount));
    var pos := CollideAll(host.sqrt, ClampToWorld(Add(b.pos, vel)), BaseR, obstacles);
    var cd := CooldownStep(b.tearTimer, Mag(host.sqrt, vel) < IdleSpeed);
    Blob(pos, vel, b.noiseSeed + SeedStep, cd.timer, NextTears(b.tears, cd.spawn, pos, draw))
  }

  /** With a true square root the speed never exceeds 2.3. */
  lemma SpeedBound(host: Host, keyIsDown: int -> bool, frameCount: nat,
                   obstacles: seq<Rect>, draw: TearDraw, b: Blob)
    requires ExactSqrt(host.sqrt)
    ensures MagSq(BlobStep(host, keyIsDown, frameCount, obstacles, draw, b).vel) <= MaxSpeed * MaxSpeed
  {
    var r := BlobStep(host, keyIsDown, frameCount, obstacles, draw, b);
    var desired := Desired(host, keyIsDown, b.noiseSeed, frameCount);
    LimitBound(host.sqrt, Scale(Add(Add(b.vel, Scale(desired, Accel)), Gravity), Damping), MaxSpeed);
  }

  /** The shelf pass is not followed by another clamp, but when the clamped
      centre touches no shelf the blob ends the update inside the world
      bounds. */
  lemma ClearStaysInWorld(host: Host, keyIsDown: int -> bool, frameCount: nat,
                          obstacles: seq<Rect>, draw: TearDraw, b: Blob)
    requires var vel := NextVelocity(host.sqrt, b.vel, Desired(host, keyIsDown, b.noiseSeed, frameCount));
      forall i :: 0 <= i < |obstacles| ==> !Overlaps(ClampToWorld(Add(b.pos, vel)), BaseR, obstacles[i])
    ensures InWorld(BlobStep(host, keyIsDown, frameCount, obstacles, draw, b).pos)
  {
  }

  // ---- staying inside the world ----

  /** A shelf the push-out cannot throw a blob out of the world from: it lies
      at least 68 from the side edges (one blob width, with room for the
      degenerate push of 33), and each of its horizontal edges is either out
      of the blob's reach or far enough inside for a push of 34 to stay in. */
  predicate SafeShelf(r: Rect) {
    && 0.0 <= r.w && 0.0 <= r.h
    && 2.0 * BaseR <= r.x && r.x + r.w + BaseR + (BaseR - 1.0) <= Width - BaseR
    && (r.y <= BaseR || 2.0 * BaseR <= r.y) && r.y <= FloorY - BaseR
    && (FloorY - BaseR <= r.y + r.h || r.y + r.h + BaseR <= FloorY - BaseR) && BaseR <= r.y + r.h
  }

  /** The degenerate push from a safe shelf keeps the blob inside the world:
      an overlapping centre is less than 34 right of the shelf, so 33 more
      stays left of the right edge. */
  lemma DegenerateInWorld(sqrt: real -> real, c: Vec, r: Rect)
    requires InWorld(c) && SafeShelf(r) && Overlaps(c, BaseR, r) && Mag(sqrt, Offset(c, r)) == 0.0
    ensures InWorld(ResolveCircleRect(sqrt, c, BaseR, r).pos)
  {
    var off := Offset(c, r);
    CoordBelowRadius(off.x, off.y, BaseR);
    assert Closest(c, r).x <= r.x + r.w;
  }

  /** A non-degenerate push from a safe shelf keeps the blob inside the
      world: it ends within 34 of the shelf, on the side it came from. */
  lemma AwayInWorld(sqrt: real -> real, c: Vec, r: Rect)
    requires ExactSqrt(sqrt) && InWorld(c) && SafeShelf(r) && Overlaps(c, BaseR, r)
    requires Mag(sqrt, Offset(c, r)) != 0.0
    ensures InWorld(ResolveCircleRect(sqrt, c, BaseR, r).pos)
  {
    PushAway(sqrt, c, BaseR, r);
    var q := Closest(c, r);
    assert InRect(q, r);
  }

  /** With a true square root, pushing the blob out of a safe shelf keeps it
      inside the world. */
  lemma ShelfKeepsInWorld(sqrt: real -> real, c: Vec, r: Rect)
    requires ExactSqrt(sqrt) && InWorld(c) && SafeShelf(r)
    ensures InWorld(ResolveCircleRect(sqrt, c, BaseR, r).pos)
  {
    if Overlaps(c, BaseR, r) {
      if Mag(sqrt, Offset(c, r)) == 0.0 {
        DegenerateInWorld(sqrt, c, r);
      } else {
        AwayInWorld(sqrt, c, r);
      }
    }
  }

  /** The whole shelf pass keeps the blob inside the world when every shelf
      is safe. */
  lemma {:induction false} CollideInWorld(sqrt: real -> real, c: Vec, rs: seq<Rect>)
    requires ExactSqrt(sqrt) && InWorld(c)
    requires forall i :: 0 <= i < |rs| ==> SafeShelf(rs[i])
    ensures InWorld(CollideAll(sqrt, c, BaseR, rs))
    decreases |rs|
  {
    if rs != [] {
      ShelfKeepsInWorld(sqrt, c, rs[0]);
      CollideInWorld(sqrt, ResolveCircleRect(sqrt, c, BaseR, rs[0]).pos, rs[1..]);
    }
  }

  /** With a true square root and safe shelves, the blob ends every update
      inside the world bounds, although the shelf pass is not followed by
      another clamp. */
  lemma StepInWorld(host: Host, keyIsDown: int -> bool, frameCount: nat,
                    obstacles: seq<Rect>, draw: TearDraw, b: Blob)
    requires ExactSqrt(host.sqrt)
    requires forall i :: 0 <= i < |obstacles| ==> SafeShelf(obstacles[i])
    ensures InWorld(BlobStep(host, keyIsDown, frameCount, obstacles, draw, b).pos)
  {
    var r := BlobStep(host, keyIsDown, frameCount, obstacles, draw, b);
    CollideInWorld(host.sqrt, ClampToWorld(Add(b.pos, r.vel)), obstacles);
  }

  // ---- how many tears can be alive ----

  /** What holds of the tear list between updates: no done tear, lives in
      [1, 109 - timer], spaced at least 23 apart. */
  predicate TearsOk(tears: seq<Tear>, timer: int) {
    && 0 <= timer
    && (forall t :: t in tears ==> !t.done && 1 <= t.life && t.life + timer <= TearLife - 1)
    && Spaced(tears, TearCooldown + 1)
  }

  predicate TearsInv(b: Blob) { TearsOk(b.tears, b.tearTimer) }

  /** A new blob satisfies the tear invariant. */
  lemma NewBlobTears(x: real, y: real, seed: Uniform)
    ensures TearsInv(NewBlob(x, y, seed))
  {
  }

  /** One cooldown step followed by the tear update keeps the invariant: a
      tear is spawned only once the timer has passed 22, so the newest life
      is at least 23 above every older one. */
  lemma {:induction false} TearsOkStep(tears: seq<Tear>, timer: int, idle: bool, at: Vec, draw: TearDraw)
    requires TearsOk(tears, timer)
    ensures TearsOk(NextTears(tears, CooldownStep(timer, idle).spawn, at, draw), CooldownStep(timer, idle).timer)
  {
    var cd := CooldownStep(timer, idle);
    var ts := if cd.spawn then tears + [NewTear(at.x, at.y, draw)] else tears;
    if cd.spawn {
      if tears != [] {
        assert tears[|tears| - 1] in tears;
      }
      AppendSpaced(tears, NewTear(at.x, at.y, draw), TearCooldown + 1);
    }
    assert forall t :: t in ts ==> t.life + cd.timer <= TearLife;
    var stepped := StepAll(ts);
    StepAllSpaced(ts, TearCooldown + 1);
    forall u | u in stepped
      ensures !u.done ==> 1 <= u.life && u.life + cd.timer <= TearLife - 1
    {
      var i :| 0 <= i < |stepped| && stepped[i] == u;
      assert ts[i] in ts;
    }
    DropDoneSpaced(stepped, TearCooldown + 1);
  }

  /** `BlobStep` keeps the tear invariant. */
  lemma TearsInvStep(host: Host, keyIsDown: int -> bool, frameCount: nat,
                     obstacles: seq<Rect>, draw: TearDraw, b: Blob)
    requires TearsInv(b)
    ensures TearsInv(BlobStep(host, keyIsDown, frameCount, obstacles, draw, b))
  {
    var r := BlobStep(host, keyIsDown, frameCount, obstacles, draw, b);
    TearsOkStep(b.tears, b.tearTimer, Mag(host.sqrt, r.vel) < IdleSpeed, r.pos, draw);
  }

  /** At most five tears are alive at once: lives lie in [1, 109] and are
      spaced 23 apart. */
  lemma FewTears(b: Blob)
    requires TearsInv(b)
    ensures |b.tears| <= 5
  {
    if b.tears != [] {
      var k := |b.tears| - 1;
      SpacedGrowth(b.tears, TearCooldown + 1, k);
      assert b.tears[0] in b.tears && b.tears[k] in b.tears;
    }
  }
}
