/**
  `Note`: a mischief object with two states. An idle note bobs in place and
  can be stolen by touching it, or bumped away with SHIFT held; a stolen
  note orbits the blob until its respawn deadline passes.
 */
module Notes {
  import opened P5
  import opened Vector
  import opened SadBlob

  /** A note. `respawnAt` is a frame number, or `Unset` while no deadline
      has been fixed. */
  datatype Note = Note(pos: Vec, stolen: bool, theta: real, orbitR: real, respawnAt: int, seed: real)

  /** The two `random` draws of a respawn position. */
  datatype SpawnDraw = SpawnDraw(x: Uniform, y: Uniform)

  /** The draws behind one note of `setup`: its position, then the
      constructor's angle, orbit radius and bob seed. */
  datatype NoteBirth = NoteBirth(at: SpawnDraw, theta: Uniform, orbitR: Uniform, seed: Uniform)

  const NoteR: real := 12.0
  const Unset: int := -1
  const OrbitStep: real := 0.025
  const OrbitSquash: real := 0.55
  const OrbitDrop: real := 14.0
  const RespawnDelay: int := 260
  const BumpDistance: real := 18.0

  /** The touch distance: the note's radius plus 85% of the blob's. */
  const Reach: real := NoteR + BaseR * 0.85

  /** `random(70, width - 70), random(70, height - 90)`. */
  function SpawnPoint(d: SpawnDraw): (p: Vec)
    ensures 70.0 <= p.x < Width - 70.0 && 70.0 <= p.y < Height - 90.0
  {
    Vec(Random(d.x, 70.0, Width - 70.0), Random(d.y, 70.0, Height - 90.0))
  }

  /** The play area an idle note is kept in. */
  predicate InPlay(p: Vec) {
    50.0 <= p.x <= Width - 50.0 && 50.0 <= p.y <= Height - 90.0
  }

  /** The closing `constrain` calls of the idle branch. */
  function ClampToPlay(p: Vec): (q: Vec)
    ensures InPlay(q)
    ensures InPlay(p) ==> q == p
  {
    Vec(Constrain(p.x, 50.0, Width - 50.0), Constrain(p.y, 50.0, Height - 90.0))
  }

  /** `new Note(x, y)` at a `setup` position: idle, with no deadline. */
  function NewNote(d: NoteBirth): (n: Note)
    ensures !n.stolen && n.respawnAt == Unset
    ensures n.pos == SpawnPoint(d.at) && InPlay(n.pos)
    ensures 0.0 <= n.theta < TwoPi && 42.0 <= n.orbitR < 58.0 && 0.0 <= n.seed < 999.0
  {
    Note(SpawnPoint(d.at), false, RandomBelow(d.theta, TwoPi), Random(d.orbitR, 42.0, 58.0), Unset,
         RandomBelow(d.seed, 999.0))
  }

  /** Between updates: an idle note has no deadline and lies in the play
      area. */
  predicate NoteInv(n: Note) {
    !n.stolen ==> n.respawnAt == Unset && InPlay(n.pos)
  }

  // ---- the stolen state ----

  /** The orbit position around the blob at angle `theta`: an ellipse
      squashed vertically and hanging 14 below the blob's centre. */
  function OrbitPoint(host: Host, center: Vec, theta: real, orbitR: real): Vec {
    Vec(center.x + host.cos(theta) * orbitR, center.y + host.sin(theta) * (orbitR * OrbitSquash) + OrbitDrop)
  }

  /** The deadline the stolen branch works with: the stored one, or
      `frameCount + 260` if none is stored yet. */
  function Deadline(frameCount: nat, respawnAt: int): int {
    if respawnAt == Unset then frameCount + RespawnDelay else respawnAt
  }

  /** The stolen branch of `update`: advance the orbit, fix the deadline if
      unset, and respawn idle at a fresh position once `frameCount` is past
      it. */
  function Orbit(host: Host, frameCount: nat, blob: Blob, spawn: SpawnDraw, n: Note): (r: Note)
    ensures r.theta == n.theta + OrbitStep && r.orbitR == n.orbitR && r.seed == n.seed
    ensures frameCount > Deadline(frameCount, n.respawnAt) ==>
      !r.stolen && r.respawnAt == Unset && r.pos == SpawnPoint(spawn)
    ensures frameCount <= Deadline(frameCount, n.respawnAt) ==>
      r.stolen == n.stolen && r.respawnAt == Deadline(frameCount, n.respawnAt) &&
      r.pos == OrbitPoint(host, blob.pos, r.theta, n.orbitR)
    ensures n.respawnAt == Unset ==> r.stolen == n.stolen && r.respawnAt == frameCount + RespawnDelay
  {
    var theta := n.theta + OrbitStep;
    var orbiting := n.(theta := theta, pos := OrbitPoint(host, blob.pos, theta, n.orbitR));
    var fixed := if orbiting.respawnAt == Unset then orbiting.(respawnAt := frameCount + RespawnDelay) else orbiting;
    if frameCount > fixed.respawnAt then fixed.(stolen := false, respawnAt := Unset, pos := SpawnPoint(spawn))
    else fixed
  }

  // ---- the idle state ----

  /** The idle bob: a noise-driven nudge in x and a sine-driven one in y. */
  function Bob(host: Host, frameCount: nat, n: Note): Vec {
    var w := host.noise(n.seed, (frameCount as real) * 0.01) - 0.5;
    Vec(n.pos.x + w * 0.25, n.pos.y + host.sin((frameCount as real) * 0.02 + n.seed) * 0.1)
  }

  /** The blob is within touch distance of the point `p`. */
  predicate Touching(sqrt: real -> real, p: Vec, blob: Blob) {
    Dist(sqrt, p, blob.pos) < Reach
  }

  /** The direction of a bump: from the blob to the note, or (1, 0) when the
      host reports that vector's length as 0. */
  function BumpDirection(sqrt: real -> real, p: Vec, blob: Blob): (dir: Vec)
    ensures Mag(sqrt, Sub(p, blob.pos)) != 0.0 ==> dir == Sub(p, blob.pos)
    ensures Mag(sqrt, Sub(p, blob.pos)) == 0.0 ==> dir == Vec(1.0, 0.0)
  {
    var push := Sub(p, blob.pos);
    if Mag(sqrt, push) == 0.0 then Vec(1.0, 0.0) else push
  }

  /** The bump displacement: the direction normalized and scaled to 18. */
  function BumpPush(sqrt: real -> real, p: Vec, blob: Blob): Vec {
    Scale(Normalize(sqrt, BumpDirection(sqrt, p, blob)), BumpDistance)
  }

  /** With a true square root a bump moves the note exactly 18. */
  lemma BumpLength(sqrt: real -> real, p: Vec, blob: Blob)
    requires ExactSqrt(sqrt)
    ensures MagSq(BumpPush(sqrt, p, blob)) == BumpDistance * BumpDistance
  {
    var dir := BumpDirection(sqrt, p, blob);
    DirectionLength(sqrt, p, blob);
    NormalizeUnit(sqrt, dir);
    ScaleMagSq(Normalize(sqrt, dir), BumpDistance);
  }

  /** The bump direction never has length 0 under a true square root. */
  lemma DirectionLength(sqrt: real -> real, p: Vec, blob: Blob)
    requires ExactSqrt(sqrt)
    ensures Mag(sqrt, BumpDirection(sqrt, p, blob)) != 0.0
  {
    var push := Sub(p, blob.pos);
    if Mag(sqrt, push) == 0.0 {
      assert MagSq(Vec(1.0, 0.0)) == 1.0;
    }
  }

  /** The result of one `update`: the note and whether it was stolen just
      now (the `stolenCount++`). */
  datatype NoteStep = NoteStep(note: Note, stole: bool)

  /** `Note.update(blob)`. A stolen note only orbits (the branch returns
      early). An idle note bobs; if then touching the blob it is bumped away
      when SHIFT is held and stolen otherwise; finally it is clamped to the
      play area. */
  function NoteUpdate(host: Host, keyIsDown: int -> bool, frameCount: nat, blob: Blob,
                      spawn: SpawnDraw, n: Note): (r: NoteStep)
    ensures n.stolen ==> !r.stole && r.note == Orbit(host, frameCount, blob, spawn, n)
    ensures !n.stolen ==>
      (r.stole <==> Touching(host.sqrt, Bob(host, frameCount, n), blob) && !keyIsDown(ShiftKey))
    ensures !n.stolen ==> r.note.stolen == r.stole && r.note.respawnAt == n.respawnAt && InPlay(r.note.pos)
    ensures !n.stolen && !Touching(host.sqrt, Bob(host, frameCount, n), blob) ==>
      r.note.pos == ClampToPlay(Bob(host, frameCount, n))
    ensures !n.stolen && Touching(host.sqrt, Bob(host, frameCount, n), blob) && keyIsDown(ShiftKey) ==>
      r.note.pos == ClampToPlay(Add(Bob(host, frameCount, n), BumpPush(host.sqrt, Bob(host, frameCount, n), blob)))
    ensures !n.stolen ==> r.note.theta == n.theta && r.note.orbitR == n.orbitR && r.note.seed == n.seed
    ensures r.stole <==> !n.stolen && r.note.stolen
    ensures NoteInv(n) ==> NoteInv(r.note)
  {
    if n.stolen then NoteStep(Orbit(host, frameCount, blob, spawn, n), false)
    else
      var p := Bob(host, frameCount, n);
      var touching := Touching(host.sqrt, p, blob);
      var bumped := touching && keyIsDown(ShiftKey);
      var stole := touching && !keyIsDown(ShiftKey);
      var moved := if bumped then Add(p, BumpPush(host.sqrt, p, blob)) else p;
      NoteStep(n.(pos := ClampToPlay(moved), stolen := stole), stole)
  }

  // ---- the deadline over consecutive frames ----

  /** One `update` per frame from frame `first` on, seeing `blobs[i]` in
      frame `first + i`. */
  function NoteRun(host: Host, keys: nat -> (int -> bool), first: nat, blobs: seq<Blob>,
                   spawn: nat -> SpawnDraw, n: Note): Note
    decreases |blobs|
  {
    if blobs == [] then n
    else NoteRun(host, keys, first + 1, blobs[1..], spawn,
                 NoteUpdate(host, keys(first), first, blobs[0], spawn(first), n).note)
  }

  /** A stolen note with deadline `D` stays stolen, deadline unchanged, in
      every frame up to `D`, and respawns idle in frame `D + 1`. */
  lemma {:induction false} StolenUntil(host: Host, keys: nat -> (int -> bool), first: nat, blobs: seq<Blob>,
                                       spawn: nat -> SpawnDraw, n: Note)
    requires n.stolen && 0 <= n.respawnAt && first <= n.respawnAt + 1
    ensures |blobs| <= n.respawnAt + 1 - first ==>
      NoteRun(host, keys, first, blobs, spawn, n).stolen &&
      NoteRun(host, keys, first, blobs, spawn, n).respawnAt == n.respawnAt
    ensures |blobs| == n.respawnAt + 2 - first ==>
      !NoteRun(host, keys, first, blobs, spawn, n).stolen &&
      NoteRun(host, keys, first, blobs, spawn, n).respawnAt == Unset &&
      InPlay(NoteRun(host, keys, first, blobs, spawn, n).pos)
    decreases |blobs|
  {
    if blobs != [] {
      var next := NoteUpdate(host, keys(first), first, blobs[0], spawn(first), n).note;
      if first <= n.respawnAt {
        StolenUntil(host, keys, first + 1, blobs[1..], spawn, next);
      } else if |blobs| == 1 {
        assert blobs[1..] == [];
      }
    }
  }

  /** A note just stolen (no deadline yet) is carried for 261 updates and
      respawns idle on the 262nd: the first stolen update fixes the
      deadline 260 frames ahead. */
  lemma FreshStolenRun(host: Host, keys: nat -> (int -> bool), first: nat, blobs: seq<Blob>,
                       spawn: nat -> SpawnDraw, n: Note)
    requires n.stolen && n.respawnAt == Unset && blobs != []
    ensures |blobs| <= RespawnDelay + 1 ==>
      NoteRun(host, keys, first, blobs, spawn, n).stolen &&
      NoteRun(host, keys, first, blobs, spawn, n).respawnAt == first + RespawnDelay
    ensures |blobs| == RespawnDelay + 2 ==>
      !NoteRun(host, keys, first, blobs, spawn, n).stolen &&
      InPlay(NoteRun(host, keys, first, blobs, spawn, n).pos)
  {
    var next := NoteUpdate(host, keys(first), first, blobs[0], spawn(first), n).note;
    StolenUntil(host, keys, first + 1, blobs[1..], spawn, next);
  }

  // ---- the note list ----

  /** How many updates stole their note. */
  function CountSteals(us: seq<NoteStep>): (k: nat)
    ensures k <= |us|
    decreases |us|
  {
    if us == [] then 0 else (if us[0].stole then 1 else 0) + CountSteals(us[1..])
  }

  /** How many notes are idle. */
  function CountIdle(ns: seq<Note>): (k: nat)
    ensures k <= |ns|
    decreases |ns|
  {
    if ns == [] then 0 else (if ns[0].stolen then 0 else 1) + CountIdle(ns[1..])
  }

  /** `for (let n of notes) n.update(blob)`: every note sees the same blob,
      the one from the previous frame, and draws its own respawn position. */
  function NotesUpdate(host: Host, keyIsDown: int -> bool, frameCount: nat, blob: Blob,
                       spawn: int -> SpawnDraw, notes: seq<Note>): (us: seq<NoteStep>)
    ensures |us| == |notes|
    ensures forall i :: 0 <= i < |notes| ==>
      us[i] == NoteUpdate(host, keyIsDown, frameCount, blob, spawn(i), notes[i])
  {
    seq(|notes|, i requires 0 <= i < |notes| => NoteUpdate(host, keyIsDown, frameCount, blob, spawn(i), notes[i]))
  }

  /** The notes an update list leaves behind. */
  function After(us: seq<NoteStep>): (ns: seq<Note>)
    ensures |ns| == |us|
    ensures forall i :: 0 <= i < |us| ==> ns[i] == us[i].note
  {
    seq(|us|, i requires 0 <= i < |us| => us[i].note)
  }

  /** Only an idle note can be stolen, so one frame's steals are at most the
      number of idle notes before it. */
  lemma {:induction false} StealsAtMostIdle(us: seq<NoteStep>, ns: seq<Note>)
    requires |us| == |ns|
    requires forall i :: 0 <= i < |us| ==> us[i].stole ==> !ns[i].stolen
    ensures CountSteals(us) <= CountIdle(ns)
    decreases |us|
  {
    if us != [] {
      StealsAtMostIdle(us[1..], ns[1..]);
    }
  }

  /** Each steal turns an idle note into a stolen one, so the steals are
      exactly the notes that went from idle to stolen. */
  lemma {:induction false} StealsAreNewlyStolen(us: seq<NoteStep>, ns: seq<Note>)
    requires |us| == |ns|
    requires forall i :: 0 <= i < |us| ==> (us[i].stole <==> !ns[i].stolen && us[i].note.stolen)
    ensures CountSteals(us) == CountNewlyStolen(ns, After(us))
    decreases |us|
  {
    if us != [] {
      assert After(us)[1..] == After(us[1..]);
      StealsAreNewlyStolen(us[1..], ns[1..]);
    }
  }

  /** How many positions hold an idle note in `before` and a stolen one in
      `after`. */
  function CountNewlyStolen(before: seq<Note>, after: seq<Note>): nat
    requires |before| == |after|
    decreases |before|
  {
    if before == [] then 0
    else (if !before[0].stolen && after[0].stolen then 1 else 0) + CountNewlyStolen(before[1..], after[1..])
  }

  /** The note-list update: one frame's steals are at most the idle notes,
      they are exactly the notes that became stolen, and the invariant holds
      of every note afterwards. */
  lemma NotesStep(host: Host, keyIsDown: int -> bool, frameCount: nat, blob: Blob,
                  spawn: int -> SpawnDraw, notes: seq<Note>)
    ensures CountSteals(NotesUpdate(host, keyIsDown, frameCount, blob, spawn, notes)) <= CountIdle(notes)
    ensures CountSteals(NotesUpdate(host, keyIsDown, frameCount, blob, spawn, notes)) ==
      CountNewlyStolen(notes, After(NotesUpdate(host, keyIsDown, frameCount, blob, spawn, notes)))
    ensures (forall i :: 0 <= i < |notes| ==> NoteInv(notes[i])) ==>
      forall i :: 0 <= i < |notes| ==> NoteInv(After(NotesUpdate(host, keyIsDown, frameCount, blob, spawn, notes))[i])
  {
    var us := NotesUpdate(host, keyIsDown, frameCount, blob, spawn, notes);
    StealsAtMostIdle(us, notes);
    StealsAreNewlyStolen(us, notes);
  }

  /** How many notes are stolen. */
  function CountHeld(ns: seq<Note>): (k: nat)
    ensures k <= |ns|
    decreases |ns|
  {
    if ns == [] then 0 else (if ns[0].stolen then 1 else 0) + CountHeld(ns[1..])
  }

  /** A note stolen after an update was stolen before it or was just
      stolen, so the stolen notes grow by at most the new steals. */
  lemma {:induction false} HeldAtMost(before: seq<Note>, after: seq<Note>)
    requires |before| == |after|
    ensures CountHeld(after) <= CountHeld(before) + CountNewlyStolen(before, after)
    decreases |before|
  {
    if before != [] {
      HeldAtMost(before[1..], after[1..]);
    }
  }
}
