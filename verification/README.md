# Sad blob: the per-frame simulation, modelled in Dafny

This project models the simulation core of the "Emotion Blob: SAD" p5.js sketch. A
player blob moves through a small bookshop map. It is steered by the keyboard, drifts
on Perlin noise, is pulled down by a weak gravity, is kept inside the canvas and is
pushed out of four shelves. While it stands still it sheds tears from its eyes. Nine
notes sit on the map: touching one steals it (the HUD counter `stolenCount` rises), and
touching it with SHIFT held bumps it away. A stolen note orbits the blob until a
frame-count deadline passes, then respawns. 160 rain streaks fall and are recycled
forever.

Only state updates are modelled; nothing that draws is. Each entity is an immutable
datatype and each update a pure function:

- `P5` holds the canvas constants, `constrain` and `random`. It also holds a `Host`
  record carrying the primitives the sketch calls but does not define (`sqrt`, `sin`,
  `cos`, `noise`).
- `Vector` holds the `p5.Vector` operations.
- `Collision` holds `resolveCircleRect` and the shelf pass.
- `Input` holds `inputVector`.
- `Tears` holds `Tear`, `Rain` holds `RainDrop`, `SadBlob` holds `SadBlob.update`,
  and `Notes` holds `Note.update`.
- `Sketch` holds `setup` and the update order of `draw`.

Numbers are Dafny `real`s. Each `random(lo, hi)` call is a parameter `u` in [0, 1),
giving `u * (hi - lo) + lo`, with the bounds swapped when `lo > hi` as p5 does. The
frame counter is a `nat`. `keyIsDown` is a function from p5 key codes to booleans. The
step functions assume nothing about the host's primitives. Lemmas about lengths assume
`ExactSqrt`, that is, the host's `sqrt` is a true square root.

In `resolveCircleRect`'s zero-distance branch the code sets `d = 1` before computing
`overlap = cR - d`. The centre therefore moves by `cR - 1` along +x (33 for the blob),
not by the full radius. The model follows the code. `InsidePushStillOverlaps` shows the
consequence: a blob whose centre is inside a shelf still overlaps that shelf after the
push.

## Model

| member | source | states |
|---|---|---|
| P5.Constrain | sketch.js:426-427 | the result lies in [low, high]; it is the input when the input is in range, and the nearer bound otherwise |
| P5.RandomBelow | sketch.js:146 | the one-argument `random(n)` lies in [0, n) for positive n |
| P5.Random | sketch.js:377-381 | `random(lo, hi)` lies in [lo, hi) (or [hi, lo) when the bounds are swapped) and is `lo` when they are equal |
| Vector.Normalize | sketch.js:132 | a zero-length vector is left alone; otherwise each coordinate times the length gives back the input |
| Vector.NormalizeUnit | sketch.js:132 | with a true square root, normalizing a vector of non-zero length yields squared length 1 |
| Vector.Limit | sketch.js:176 | a vector within the bound is returned unchanged |
| Vector.LimitBound | sketch.js:176 | with a true square root the result's squared length is at most max², and exactly max² when the input was longer |
| Collision.Closest | sketch.js:426-427 | the clamped point lies in the rectangle, and is the centre itself when the centre is inside |
| Collision.ResolveCircleRect | sketch.js:425-447 | returns true exactly when the squared distance to the nearest point is below cR²; on false the centre is unchanged; on zero distance it moves by cR - 1 along +x only |
| Collision.PushAway | sketch.js:433-444 | with a true square root, a non-degenerate push moves the centre away from the nearest point on each axis where it was off the rectangle, ends no more than cR past that point on each axis, and keeps that nearest point |
| Collision.PushClears | sketch.js:433-444 | with a true square root, a non-degenerate push leaves the centre exactly cR from the nearest point of the rectangle, so the circle no longer overlaps it |
| Collision.InsidePush | sketch.js:433-444 | with a true square root, a radius-34 circle centred inside a rectangle reports a hit and is moved exactly 33 along +x |
| Collision.InsidePushStillOverlaps | sketch.js:435-443 | after that degenerate push the circle still overlaps the rectangle |
| Collision.CollideAll | sketch.js:186-188 | a centre that overlaps none of the shelves comes back unchanged |
| Collision.CollideAllAppend | sketch.js:186-188 | the pass is a left fold over the list: passing over a + b is passing over b from where the pass over a ended |
| Input.InputVector | sketch.js:123-134 | on each axis the sign is negative or positive exactly when that side's key group alone is held |
| Input.InputUnit | sketch.js:123-134 | with a true square root the vector is zero exactly when opposite keys cancel on both axes, and a unit vector otherwise |
| Tears.NewTear | sketch.js:399-407 | the side is ±1 and is -1 exactly when the draw is below 0.5; x is 11 to that side, y is 2 up, vy is in [1.4, 2.4), life 110, not done |
| Tears.TearStep | sketch.js:409-414 | y grows by vy, vy by 0.02, life falls by one, and done becomes true exactly when life ≤ 0, y > height - 60, or it was already done |
| Tears.TearRun | sketch.js:409-414 | after n updates life has fallen by n and vy has grown by 0.02·n; done stays done; a tear whose life is at most n is done |
| Tears.FreshTearExpires | sketch.js:405 | a new tear is done after at most 110 updates |
| Tears.DropDone | sketch.js:200 | the filter keeps exactly the tears that are not done |
| Tears.DropDoneAppend | sketch.js:200 | filtering distributes over concatenation, so the survivors keep their order |
| Tears.DropDoneKeeps | sketch.js:200 | a list without done tears is kept whole, and filtering is idempotent |
| Tears.AppendedTear | sketch.js:195-200 | updating and filtering a list with a tear appended gives the old survivors followed by the new tear's survivor |
| Tears.FreshTearSurvives | sketch.js:399-413 | a new tear spawned at least 0.4 above the floor line is not done after its first update |
| Tears.StepAll | sketch.js:199 | every tear is updated in place and none is added or removed |
| Rain.Reset | sketch.js:376-382 | x in [0, 900); y in [0, 540) on the first call and [-200, -20) later; length, speed and alpha in their draw ranges |
| Rain.RainStep | sketch.js:384-389 | a drop falling past the bottom is reset above the top edge; otherwise it falls by its speed and drifts by 0.35, wrapping to -20 past width + 20; the drop invariant is preserved |
| Rain.NewDrop | sketch.js:372-374 | a new drop satisfies the drop invariant and starts on the canvas |
| Rain.RainAll | sketch.js:50-53 | every drop is updated with its own draws; the count is unchanged and the invariant is kept |
| Rain.InitialRain | sketch.js:41-43 | `setup` creates 160 drops, each satisfying the drop invariant |
| SadBlob.NewBlob | sketch.js:139-151 | the blob starts at rest at (x, y), with a noise seed in [0, 1000), timer 0 and no tears |
| SadBlob.ClampToWorld | sketch.js:182-183 | the centre lands in [34, 866] × [34, 446]; each coordinate in range is kept, and each one out of range goes to the nearer edge |
| SadBlob.CooldownStep | sketch.js:191-196 | a tear is spawned exactly when the blob is idle and the incremented timer exceeds 22; spawning resets the timer to 0, otherwise it counts up by one |
| SadBlob.IdleRun | sketch.js:191-196 | over n idle updates from a timer in [0, 22], (timer + n) / 23 tears are spawned and the timer ends at (timer + n) % 23 |
| SadBlob.MovingRun | sketch.js:191-196 | over n moving updates no tear is spawned and the timer grows by n |
| SadBlob.NextTears | sketch.js:193-200 | without a spawn the result is exactly the surviving updated tears; with a spawn the new tear, updated once, follows them whenever it survives, which it does when spawned at least 0.4 above the floor line; no result tear is done and at most one is added |
| SadBlob.BlobStep | sketch.js:153-203 | the velocity is the damped, limited steering; the position is clamped and then pushed out of the shelves in order; the seed grows by 0.006; on a spawn the timer resets to 0 and exactly one new tear from the blob's final position joins the end of the surviving tears (when it survives its first update, as it does unless spawned within 0.4 of the floor line); otherwise the timer counts up and the tears are the surviving old ones |
| SadBlob.SpeedBound | sketch.js:173-176 | with a true square root the blob's speed never exceeds 2.3 |
| SadBlob.ClearStaysInWorld | sketch.js:182-188 | when the clamped centre overlaps no shelf, the blob ends the update inside the world bounds |
| SadBlob.ShelfKeepsInWorld | sketch.js:182-188 | with a true square root, one push out of a safe shelf keeps a blob that was inside the world bounds inside them |
| SadBlob.CollideInWorld | sketch.js:186-188 | the whole shelf pass over safe shelves keeps the blob inside the world bounds |
| SadBlob.StepInWorld | sketch.js:153-188 | with a true square root and safe shelves, `update` leaves the blob inside the world bounds although nothing clamps after the shelf pass |
| SadBlob.TearsOkStep | sketch.js:191-200 | the tear invariant holds across one cooldown step and tear update: no done tear, lives in [1, 109 - timer], and lives at least 23 apart |
| SadBlob.TearsInvStep | sketch.js:153-203 | `update` keeps the tear invariant |
| SadBlob.NewBlobTears | sketch.js:149-150 | a new blob satisfies the tear invariant |
| SadBlob.FewTears | sketch.js:191-200 | under the invariant the blob never has more than five tears |
| Notes.SpawnPoint | sketch.js:321 | a respawn position lies in [70, 830) × [70, 450) |
| Notes.ClampToPlay | sketch.js:348-349 | the note lands in [50, 850] × [50, 450], and a note already there is not moved |
| Notes.NewNote | sketch.js:294-305 | a new note is idle with no deadline, at a spawn position, with angle in [0, 2π), orbit radius in [42, 58) and seed in [0, 999) |
| Notes.Orbit | sketch.js:308-324 | the angle advances by 0.025; an unset deadline becomes frameCount + 260; once frameCount is past the deadline the note respawns idle with the deadline cleared, and until then it stays stolen on its orbit |
| Notes.BumpDirection | sketch.js:336-337 | the bump direction is note minus blob, or (1, 0) when that has length 0 |
| Notes.BumpLength | sketch.js:336-339 | with a true square root the bump displacement has length exactly 18 |
| Notes.NoteUpdate | sketch.js:307-350 | a stolen note only orbits and is never counted again; an idle note is stolen exactly when it touches the blob without SHIFT; with SHIFT it stays idle and is bumped; an idle note ends in the play area; a steal is exactly an idle-to-stolen change; the note invariant is preserved |
| Notes.StolenUntil | sketch.js:317-322 | a stolen note with deadline D stays stolen through frame D and respawns idle in frame D + 1 |
| Notes.FreshStolenRun | sketch.js:317-322 | a note just stolen stays stolen for 261 updates, its deadline fixed 260 frames after its first stolen update, and respawns idle on the 262nd |
| Notes.NotesUpdate | sketch.js:59-62 | every note is updated against the same blob, the one the previous frame left |
| Notes.StealsAtMostIdle | sketch.js:340-344 | one frame's steals are at most the number of idle notes |
| Notes.StealsAreNewlyStolen | sketch.js:340-344 | one frame's steals are exactly the notes that went from idle to stolen |
| Notes.HeldAtMost | sketch.js:317-322 | the number of stolen notes grows by at most the new steals |
| Notes.NotesStep | sketch.js:59-62 | the note loop bounds and identifies the counter increment and keeps every note's invariant |
| Sketch.Setup | sketch.js:22-44 | the blob starts at (140, 140); there are the four shelves, nine fresh notes and 160 fresh drops; the counter is 0 |
| Sketch.SetupInv | sketch.js:22-44 | the state `setup` builds satisfies the world invariant and has the blob inside the world bounds |
| Sketch.Frame | sketch.js:46-65 | the update order is rain, then notes against the previous blob, then the blob; the counter rises by the frame's steals; the shelves never change |
| Sketch.FrameInv | sketch.js:46-65 | one frame keeps the world invariant: 160 drops in range, the four shelves, nine notes each with its invariant, no more notes stolen than were counted, and the tear invariant |
| Sketch.SketchShelvesSafe | sketch.js:30-33 | each of the four shelves is safe, so no push out of it can throw the blob out of the world |
| Sketch.RunInWorld | sketch.js:46-65 | with a true square root the blob stays inside the world bounds over any run of frames |
| Sketch.RunInv | sketch.js:46-65 | over any run of frames the invariant holds, the counter never decreases, the rain stays at 160 drops, and the blob has at most five tears |

## Left out

- Rendering: every `display` method, `drawGloomyBackground`, `drawHUD`, the canvas and font setup, and the blob's wobbly outline and shadow. They only draw.
- The p5 primitives `sqrt`, `sin`, `cos` and `noise` are host parameters. `keyIsDown`, the frame counter and the values `random` returns are parameters too. p5's single pseudo-random stream is replaced by separate draws for each entity.
- Floating-point rounding: the model computes over exact reals. p5's `dist` (a `hypot`) is modelled as `sqrt` of the squared distance.
- The `mood` global is never read by any update.
- The orbit, bob and drift trajectories are modelled exactly, but no property is stated about their values beyond the ones in the table. They are cosmetic.
- Collision.InsidePush: stated for radius 34 (the blob's `baseR`), the only radius the sketch uses, rather than for every radius. The solver cannot reliably close the general nonlinear case.
