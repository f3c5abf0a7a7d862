/**
  The sketch's global state, `setup`, and one `draw` frame's updates in
  their source order: rain, then notes (which see the blob as the previous
  frame left it), then the blob.
 */
module Sketch {
  import opened P5
  import opened Vector
  import opened Collision
  import opened Tears
  import opened Rain
  import opened SadBlob
  import opened Notes

  /** The globals `rain`, `shelves`, `notes`, `blob` and `stolenCount`. */
  datatype World = World(rain: seq<Drop>, shelves: seq<Rect>, notes: seq<Note>, blob: Blob, stolenCount: nat)

  const NoteCount: nat := 9

  /** The four bookshop shelves, in the order `setup` pushes them. */
  const SketchShelves: seq<Rect> := [
    Rect(240.0, 80.0, 40.0, 380.0),
    Rect(440.0, 0.0, 40.0, 260.0),
    Rect(440.0, 340.0, 40.0, 200.0),
    Rect(640.0, 80.0, 40.0, 380.0)
  ]

  /** The draws of `setup`: the blob's noise seed, one `NoteBirth` per note
      and one `RainDraw` per drop. */
  datatype SetupDraw = SetupDraw(blobSeed: Uniform, notes: int -> NoteBirth, rain: int -> RainDraw)

  /** What one frame reads from outside: the keyboard, the draws of the
      rain resets, the note respawns and a possible tear, and the host. */
  datatype FrameInput = FrameInput(keyIsDown: int -> bool, rain: int -> RainDraw,
                                   spawn: int -> SpawnDraw, tear: TearDraw)

  /** Between frames: 160 drops, each in its range; the four shelves; nine
      notes, each satisfying the note invariant; no more notes stolen than
      the counter says were ever stolen; and the blob's tear invariant. */
  predicate WorldInv(w: World) {
    && |w.rain| == RainCount
    && (forall i :: 0 <= i < |w.rain| ==> RainInv(w.rain[i]))
    && w.shelves == SketchShelves
    && |w.notes| == NoteCount
    && (forall i :: 0 <= i < |w.notes| ==> NoteInv(w.notes[i]))
    && CountHeld(w.notes) <= w.stolenCount
    && TearsInv(w.blob)
  }

  /** `setup()`: the blob at (140, 140), the shelves, nine idle notes, 160
      drops, and a zero counter. */
  function Setup(d: SetupDraw): (w: World)
    ensures w.blob == NewBlob(140.0, 140.0, d.blobSeed)
    ensures |w.notes| == NoteCount && forall i :: 0 <= i < |w.notes| ==> w.notes[i] == NewNote(d.notes(i))
    ensures w.rain == InitialRain(d.rain) && w.shelves == SketchShelves && w.stolenCount == 0
  {
    World(InitialRain(d.rain), SketchShelves, seq(NoteCount, i => NewNote(d.notes(i))),
          NewBlob(140.0, 140.0, d.blobSeed), 0)
  }

  /** No note is stolen in a list of fresh notes. */
  lemma {:induction false} NoneHeld(ns: seq<Note>)
    requires forall i :: 0 <= i < |ns| ==> !ns[i].stolen
    ensures CountHeld(ns) == 0
    decreases |ns|
  {
    if ns != [] {
      NoneHeld(ns[1..]);
    }
  }

  /** The world `setup` builds satisfies the invariant. */
  lemma SetupInv(d: SetupDraw)
    ensures WorldInv(Setup(d))
    ensures InWorld(Setup(d).blob.pos)
  {
    var w := Setup(d);
    NoneHeld(w.notes);
  }

  /** The updates of one `draw()` call at frame `frameCount`. The shelves
      never change; the counter rises by the number of notes stolen. */
  function Frame(host: Host, frameCount: nat, input: FrameInput, w: World): (r: World)
    ensures r.shelves == w.shelves
    ensures r.rain == RainAll(input.rain, w.rain)
    ensures r.notes == After(NotesUpdate(host, input.keyIsDown, frameCount, w.blob, input.spawn, w.notes))
    ensures r.stolenCount ==
      w.stolenCount + CountSteals(NotesUpdate(host, input.keyIsDown, frameCount, w.blob, input.spawn, w.notes))
    ensures r.blob == BlobStep(host, input.keyIsDown, frameCount, w.shelves, input.tear, w.blob)
  {
    var rain := RainAll(input.rain, w.rain);
    var us := NotesUpdate(host, input.keyIsDown, frameCount, w.blob, input.spawn, w.notes);
    var blob := BlobStep(host, input.keyIsDown, frameCount, w.shelves, input.tear, w.blob);
    World(rain, w.shelves, After(us), blob, w.stolenCount + CountSteals(us))
  }

  /** One frame keeps the world invariant. */
  lemma FrameInv(host: Host, frameCount: nat, input: FrameInput, w: World)
    requires WorldInv(w)
    ensures WorldInv(Frame(host, frameCount, input, w))
  {
    var us := NotesUpdate(host, input.keyIsDown, frameCount, w.blob, input.spawn, w.notes);
    NotesStep(host, input.keyIsDown, frameCount, w.blob, input.spawn, w.notes);
    HeldAtMost(w.notes, After(us));
    TearsInvStep(host, input.keyIsDown, frameCount, w.shelves, input.tear, w.blob);
  }

  /** Consecutive frames starting at frame `first`, one input per frame. */
  function Run(host: Host, first: nat, inputs: seq<FrameInput>, w: World): World
    decreases |inputs|
  {
    if inputs == [] then w else Run(host, first + 1, inputs[1..], Frame(host, first, inputs[0], w))
  }

  /** Over any run of frames from `setup`'s state or any other world that
      satisfies the invariant: the invariant holds at the end, the counter
      never falls, the rain stays at 160 drops, and the blob has at most
      five tears. */
  lemma {:induction false} RunInv(host: Host, first: nat, inputs: seq<FrameInput>, w: World)
    requires WorldInv(w)
    ensures WorldInv(Run(host, first, inputs, w))
    ensures w.stolenCount <= Run(host, first, inputs, w).stolenCount
    ensures |Run(host, first, inputs, w).rain| == RainCount
    ensures |Run(host, first, inputs, w).blob.tears| <= 5
    decreases |inputs|
  {
    if inputs == [] {
      FewTears(w.blob);
    } else {
      FrameInv(host, first, inputs[0], w);
      RunInv(host, first + 1, inputs[1..], Frame(host, first, inputs[0], w));
    }
  }

  /** Every shelf of the sketch is safe: none can push the blob out of the
      world. */
  lemma SketchShelvesSafe()
    ensures forall i :: 0 <= i < |SketchShelves| ==> SafeShelf(SketchShelves[i])
  {
  }

  /** With a true square root the blob stays inside the world bounds over any
      run of frames that starts with it there. */
  lemma {:induction false} RunInWorld(host: Host, first: nat, inputs: seq<FrameInput>, w: World)
    requires ExactSqrt(host.sqrt) && w.shelves == SketchShelves && InWorld(w.blob.pos)
    ensures InWorld(Run(host, first, inputs, w).blob.pos)
    decreases |inputs|
  {
    if inputs != [] {
      SketchShelvesSafe();
      StepInWorld(host, inputs[0].keyIsDown, first, w.shelves, inputs[0].tear, w.blob);
      RunInWorld(host, first + 1, inputs[1..], Frame(host, first, inputs[0], w));
    }
  }
}
