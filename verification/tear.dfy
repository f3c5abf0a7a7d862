/**
  `Tear`: a drop that falls from one of the blob's eyes, with a life
  counter and the floor line as its two ends.
 */
module Tears {
  import opened P5

  /** A tear. `life` counts the updates left; `done` marks it for removal. */
  datatype Tear = Tear(side: int, x: real, y: real, vy: real, life: int, done: bool)

  /** The two `random` draws of the constructor: side and initial speed. */
  datatype TearDraw = TearDraw(side: Uniform, speed: Uniform)

  const TearLife: int := 110
  const EyeOffset: real := 11.0
  const TearGravity: real := 0.02

  /** `new Tear(bx, by)`: at the left or right eye, falling at a speed in
      [1.4, 2.4), with the full life and not done. */
  function NewTear(blobX: real, blobY: real, d: TearDraw): (t: Tear)
    ensures t.side == -1 || t.side == 1
    ensures t.side == -1 <==> d.side < 0.5
    ensures t.x == blobX + EyeOffset * (t.side as real) && t.y == blobY - 2.0
    ensures 1.4 <= t.vy < 2.4
    ensures t.life == TearLife && !t.done
  {
    var side := if d.side < 0.5 then -1 else 1;
    Tear(side, blobX + (side as real) * EyeOffset, blobY - 2.0, Random(d.speed, 1.4, 2.4), TearLife, false)
  }

  /** `Tear.update()`: fall by `vy`, accelerate, spend one unit of life, and
      become done once life runs out or the tear passes the floor line.
      A done tear stays done. */
  function TearStep(t: Tear): (u: Tear)
    ensures u.side == t.side && u.x == t.x
    ensures u.y == t.y + t.vy && u.vy == t.vy + TearGravity
    ensures u.life == t.life - 1
    ensures u.done <==> t.done || u.life <= 0 || u.y > FloorY
  {
    var y := t.y + t.vy;
    var life := t.life - 1;
    t.(y := y, vy := t.vy + TearGravity, life := life,
       done := if life <= 0 || y > FloorY then true else t.done)
  }

  /** `n` consecutive updates of one tear. */
  function TearSteps(t: Tear, n: nat): Tear
    decreases n
  {
    if n == 0 then t else TearSteps(TearStep(t), n - 1)
  }

  /** After `n` updates the life counter has dropped by exactly `n`, the
      speed has grown by `n` times the tear gravity, and a tear that has run
      through its whole life is done. */
  lemma {:induction false} TearRun(t: Tear, n: nat)
    ensures TearSteps(t, n).life == t.life - n
    ensures TearSteps(t, n).vy == t.vy + (n as real) * TearGravity
    ensures t.done ==> TearSteps(t, n).done
    ensures 1 <= n && t.life <= n ==> TearSteps(t, n).done
    decreases n
  {
    if n > 0 {
      TearRun(TearStep(t), n - 1);
    }
  }

  /** A fresh tear is done after at most 110 updates. */
  lemma FreshTearExpires(blobX: real, blobY: real, d: TearDraw)
    ensures TearSteps(NewTear(blobX, blobY, d), TearLife as nat).done
  {
    TearRun(NewTear(blobX, blobY, d), TearLife as nat);
  }

  /** `tears.filter(t => !t.done)`. */
  function DropDone(ts: seq<Tear>): (r: seq<Tear>)
    ensures |r| <= |ts|
    ensures forall t :: t in r <==> t in ts && !t.done
    decreases |ts|
  {
    if ts == [] then []
    else if ts[0].done then DropDone(ts[1..])
    else [ts[0]] + DropDone(ts[1..])
  }

  /** Filtering distributes over concatenation, so the kept tears stay in
      their original order. */
  lemma {:induction false} DropDoneAppend(a: seq<Tear>, b: seq<Tear>)
    ensures DropDone(a + b) == DropDone(a) + DropDone(b)
    decreases |a|
  {
    if a == [] {
      assert a + b == b;
    } else {
      assert (a + b)[1..] == a[1..] + b;
      DropDoneAppend(a[1..], b);
    }
  }

  /** A list with no done tear is kept whole; filtering twice is filtering
      once. */
  lemma {:induction false} DropDoneKeeps(ts: seq<Tear>)
    ensures (forall i :: 0 <= i < |ts| ==> !ts[i].done) ==> DropDone(ts) == ts
    ensures DropDone(DropDone(ts)) == DropDone(ts)
    decreases |ts|
  {
    if ts != [] {
      DropDoneKeeps(ts[1..]);
    }
  }

  /** `for (let t of tears) t.update()`. */
  function StepAll(ts: seq<Tear>): (r: seq<Tear>)
    ensures |r| == |ts|
    ensures forall i :: 0 <= i < |ts| ==> r[i] == TearStep(ts[i])
  {
    seq(|ts|, i requires 0 <= i < |ts| => TearStep(ts[i]))
  }

  /** Updating and filtering a list with one tear appended at the end gives
      the survivors of the list followed by the survivor, if any, of the
      appended tear. */
  lemma AppendedTear(ts: seq<Tear>, t: Tear)
    ensures DropDone(StepAll(ts + [t])) == DropDone(StepAll(ts)) + DropDone([TearStep(t)])
    ensures !TearStep(t).done ==> DropDone([TearStep(t)]) == [TearStep(t)]
  {
    assert StepAll(ts + [t]) == StepAll(ts) + [TearStep(t)];
    DropDoneAppend(StepAll(ts), [TearStep(t)]);
    assert [TearStep(t)][1..] == [];
  }

  /** A fresh tear spawned at least 0.4 above the floor line survives its
      first update: it falls less than 0.4 and keeps 109 of its life. */
  lemma FreshTearSurvives(blobX: real, blobY: real, d: TearDraw)
    requires blobY + 0.4 <= FloorY
    ensures !TearStep(NewTear(blobX, blobY, d)).done
  {
  }

  // ---- spacing of lives along the list ----

  /** Along the list each tear has at least `gap` more life left than the one
      before it (older tears come first and have less left). */
  predicate Spaced(ts: seq<Tear>, gap: int) {
    forall i :: 0 <= i < |ts| - 1 ==> ts[i].life + gap <= ts[i + 1].life
  }

  /** Filtering keeps the spacing, and does not lower the first life. */
  lemma {:induction false} DropDoneSpaced(ts: seq<Tear>, gap: int)
    requires 0 <= gap && Spaced(ts, gap)
    ensures Spaced(DropDone(ts), gap)
    ensures DropDone(ts) != [] ==> ts[0].life <= DropDone(ts)[0].life
    decreases |ts|
  {
    if ts != [] {
      var rest := ts[1..];
      assert Spaced(rest, gap);
      DropDoneSpaced(rest, gap);
      if DropDone(rest) != [] {
        assert ts[0].life + gap <= rest[0].life;
      }
    }
  }

  /** Updating every tear keeps the spacing. */
  lemma StepAllSpaced(ts: seq<Tear>, gap: int)
    requires Spaced(ts, gap)
    ensures Spaced(StepAll(ts), gap)
  {
    var r := StepAll(ts);
    forall i | 0 <= i < |r| - 1
      ensures r[i].life + gap <= r[i + 1].life
    {
      assert r[i].life == ts[i].life - 1 && r[i + 1].life == ts[i + 1].life - 1;
    }
  }

  /** Appending a tear with at least `gap` more life than the last keeps the
      spacing. */
  lemma AppendSpaced(ts: seq<Tear>, t: Tear, gap: int)
    requires Spaced(ts, gap)
    requires ts != [] ==> ts[|ts| - 1].life + gap <= t.life
    ensures Spaced(ts + [t], gap)
  {
    var r := ts + [t];
    forall i | 0 <= i < |r| - 1
      ensures r[i].life + gap <= r[i + 1].life
    {
      if i < |ts| - 1 {
        assert r[i] == ts[i] && r[i + 1] == ts[i + 1];
      }
    }
  }

  /** Along a spaced list the lives grow by at least `gap` per position. */
  lemma {:induction false} SpacedGrowth(ts: seq<Tear>, gap: int, k: nat)
    requires Spaced(ts, gap) && k < |ts|
    ensures ts[0].life + k * gap <= ts[k].life
    decreases k
  {
    if k > 0 {
      SpacedGrowth(ts, gap, k - 1);
    }
  }
}
