# Shooting stars panel, modelled in Dafny

A model of the core of `RenderPanel`, a Swing panel that animates shooting
stars. Each permitted paint pass appends one star, makes every star in the
list one pass older, moves it along a diagonal whose start point, speed and
size come from its colour, removes the stars that have left the canvas and
draws a receding trail for the rest. A 60 Hz ticker hands out frame permits
and a 1 Hz sampler turns the frame counter into the displayed rate.

The model has three modules:

- `Kinematics` (`kinematics.dfy`) holds the pure star arithmetic: `Size`,
  `Speed`, the spawn point, the position at a given age, the removal test and
  the trail geometry. It also holds the per-star drawing loop (`DrawTrail`),
  which records the squares it fills.
- `StarField` (`field.dfy`) treats the star list as a value. `Survivors` is
  what the visiting loop leaves of a list, and `Step` is a whole pass. Its
  lemmas state length accounting, the removal rule, the order of the
  survivors and where the new star ends up.
- `Panel` (`panel.dfy`) holds the class `RenderPanel`. Its integer fields
  are the permits, the frame counter, the rate and the last snapshot, and its
  `seq<Star>` field is the star list. `Tick`, `Sample` and `Paint` are the
  two timer bodies and the paint callback. `Advance` is the loop over a
  snapshot of the list: it ages each star in place and removes it in place
  when it leaves the canvas. `Paint` and `Advance` are proved against
  `StarField.Step` and `StarField.Survivors`.

A star's colour is three integers in 0..255 (`Channel`). The canvas size is
given to each paint pass as `w` and `h` (naturals). The random colour of
the new star is a parameter of `Paint`.

The entropy is an integer stand-in. The source computes it in single-precision
floating point: the channel sum times `(w + h) / 765`, rounded to the nearest
integer. `Kinematics.Entropy` is the exact rational value rounded half up;
`EntropyRounds` states that it is the nearest integer. `Spawn` and
`PositionAt` take the entropy as an input `entropy: nat`, so what is proved
about them (`Spawn`'s contract, `PositionAt`'s contract, `PositionAtNext`,
`DiagonalMotion`, `StrictlyIncreasing`) holds for any entropy value. The
members written in terms of a star and a canvas, from `StarPosition`
onwards, use the stand-in.

Facts about the code that the model relies on:

- The frame gate counts permits. It is a `Semaphore(1)`, and each tick calls
  `release()`, which adds one permit, so ticks that no paint pass consumed
  pile up. `permits` is a `nat`, and the invariant
  `permits + frameCount == ticks + 1` holds.
- For a pure red star on a 1280 by 720 canvas the entropy is
  255 * 2000 / 765 = 666.67, which rounds to 667. The spawn point is then
  (0, 53) and the position at age 10 is (40, 93) (`RedStarExample`).
- The entropy divides by the constant 765, not by the canvas size, so a
  0 by 0 canvas is harmless. The model allows `w == 0` and `h == 0`.
- Trail square sides are `size - i / 2` with no clamp at 0. The model
  proves that they are never below 1.

`Panel.PacingScenario` is a worked run of the panel with no contract of its
own: a permitted paint, a refused paint, a tick, a second permitted paint,
then a sample that reports a rate of 2 and one more that reports 0.

## Model

| member | source | states |
|---|---|---|
| `Kinematics.Size` | src/main/java/net/adriantodt/asteroidsjpanel/RenderPanel.kt:80 | size lies in [1, 4]; it is 1 exactly when blue + green < 128 and 4 exactly when blue + green >= 384 (truncating division) |
| `Kinematics.Speed` | src/main/java/net/adriantodt/asteroidsjpanel/RenderPanel.kt:81 | speed lies in [1, 7]; it is 1 exactly when 4 red + 2 green + blue < 256 and 7 exactly when it is >= 1536 |
| `Kinematics.Entropy` | src/main/java/net/adriantodt/asteroidsjpanel/RenderPanel.kt:62-68 | integer stand-in for the float entropy; never more than w + h |
| `Kinematics.RoundedRatio` | src/main/java/net/adriantodt/asteroidsjpanel/RenderPanel.kt:63-68 | for a channel sum of at most 765, the rounded ratio is at most w + h |
| `Kinematics.EntropyRounds` | src/main/java/net/adriantodt/asteroidsjpanel/RenderPanel.kt:63-68 | the stand-in is the nearest integer to sum * (w + h) / 765, halves rounded up |
| `Kinematics.Spawn` | src/main/java/net/adriantodt/asteroidsjpanel/RenderPanel.kt:70-79 | entropy < h spawns on the left edge (x = 0, 0 < y <= h); otherwise on the top edge (y = 0, x >= 0); the entropy can be read back from the point as x + (h - y) |
| `Kinematics.PositionAt` | src/main/java/net/adriantodt/asteroidsjpanel/RenderPanel.kt:83-84 | x - y at any age equals x - y at spawn; each coordinate is at least its spawn value plus the age |
| `Kinematics.DiagonalMotion` | src/main/java/net/adriantodt/asteroidsjpanel/RenderPanel.kt:83-84 | curX - curY is the same at every two ages |
| `Kinematics.PositionAtNext` | src/main/java/net/adriantodt/asteroidsjpanel/RenderPanel.kt:83-84 | one more pass moves each coordinate by exactly the speed |
| `Kinematics.StarPositionDiagonal` | src/main/java/net/adriantodt/asteroidsjpanel/RenderPanel.kt:83-84 | `StarPosition`, the position the pass computes for a star, lies on the diagonal x - y = entropy - h, and each coordinate is at least the age |
| `Kinematics.StrictlyIncreasing` | src/main/java/net/adriantodt/asteroidsjpanel/RenderPanel.kt:83-84 | both coordinates strictly increase with age |
| `Kinematics.OffCanvasPersists` | src/main/java/net/adriantodt/asteroidsjpanel/RenderPanel.kt:83-87 | a star off the canvas at some age is off it at every later age |
| `Kinematics.SpawnOnCanvas` | src/main/java/net/adriantodt/asteroidsjpanel/RenderPanel.kt:68-79 | a star of age 0 is on the canvas |
| `Kinematics.VisibleAgeBound` | src/main/java/net/adriantodt/asteroidsjpanel/RenderPanel.kt:83-86 | a star still on the canvas has age <= w and age <= h |
| `Kinematics.NextPositionBound` | src/main/java/net/adriantodt/asteroidsjpanel/RenderPanel.kt:83-86 | for a star still on the canvas, the position computed at the next pass is at most w + 7 and h + 7 |
| `Kinematics.TrailSquare` | src/main/java/net/adriantodt/asteroidsjpanel/RenderPanel.kt:92 | square i of a trail stays on the head's diagonal and has side size - i / 2 |
| `Kinematics.Trail` | src/main/java/net/adriantodt/asteroidsjpanel/RenderPanel.kt:90-92 | a trail has exactly 2 * size squares; the first is at the head with side size; every side is >= 1; the last side is 1 |
| `Kinematics.TrailRecedes` | src/main/java/net/adriantodt/asteroidsjpanel/RenderPanel.kt:90-92 | each square is one speed step further back on both axes than the one before it, and no larger |
| `Kinematics.StarTrail` | src/main/java/net/adriantodt/asteroidsjpanel/RenderPanel.kt:90-92 | the trail drawn for a star has 2 * Size(colour) squares |
| `Kinematics.DrawTrail` | src/main/java/net/adriantodt/asteroidsjpanel/RenderPanel.kt:90-93 | the drawing loop fills exactly the squares of `Trail`, in order |
| `Kinematics.VisitStar` | src/main/java/net/adriantodt/asteroidsjpanel/RenderPanel.kt:68-94 | for an aged star: it stays exactly when its position is on the canvas; a staying star has its trail drawn; a removed one has nothing drawn |
| `Kinematics.RedStarExample` | src/main/java/net/adriantodt/asteroidsjpanel/RenderPanel.kt:59-84 | colour (255, 0, 0) on 1280 by 720: entropy 667, spawn (0, 53), speed 4, position (40, 93) at age 10 |
| `Kinematics.GreenStarExample` | src/main/java/net/adriantodt/asteroidsjpanel/RenderPanel.kt:80-81 | colour (0, 255, 0): size 2 and speed 2 |
| `StarField.Aged` | src/main/java/net/adriantodt/asteroidsjpanel/RenderPanel.kt:66 | a visited star keeps its colour and its age goes up by exactly 1 |
| `StarField.AgedAll` | src/main/java/net/adriantodt/asteroidsjpanel/RenderPanel.kt:64-66 | the list with every star aged: same length, element i is star i aged |
| `StarField.RemovedCount` | src/main/java/net/adriantodt/asteroidsjpanel/RenderPanel.kt:86-87 | the number of removed stars is at most the list length |
| `StarField.Trails` | src/main/java/net/adriantodt/asteroidsjpanel/RenderPanel.kt:86-94 | one trail per kept star |
| `StarField.TrailsShape` | src/main/java/net/adriantodt/asteroidsjpanel/RenderPanel.kt:86-94 | trail i has 2 * size squares and starts with the head square of side size at star i's position |
| `StarField.Survivors` | src/main/java/net/adriantodt/asteroidsjpanel/RenderPanel.kt:64-87 | the list the visiting loop leaves is never longer than the list it visits; its content is stated by the `Survivors*` lemmas |
| `StarField.Step` | src/main/java/net/adriantodt/asteroidsjpanel/RenderPanel.kt:48-87 | the list after a pass is at most one star longer than before |
| `StarField.SurvivorsSnoc` | src/main/java/net/adriantodt/asteroidsjpanel/RenderPanel.kt:64-87 | visiting one more star extends the result by that star aged, or by nothing if it went off the canvas |
| `StarField.SurvivorsLength` | src/main/java/net/adriantodt/asteroidsjpanel/RenderPanel.kt:64-87 | the list after the loop is the old length minus the number removed |
| `StarField.SurvivorsMembership` | src/main/java/net/adriantodt/asteroidsjpanel/RenderPanel.kt:86-87 | a star is in the list after the loop exactly when it is an aged visited star and x <= w and y <= h |
| `StarField.SurvivorsOrdered` | src/main/java/net/adriantodt/asteroidsjpanel/RenderPanel.kt:64-87 | the survivors are a subsequence of the aged list, so their relative order is unchanged |
| `StarField.NoneRemoved` | src/main/java/net/adriantodt/asteroidsjpanel/RenderPanel.kt:64-87 | nothing is removed exactly when the loop only ages every star |
| `StarField.SurvivorsAppend` | src/main/java/net/adriantodt/asteroidsjpanel/RenderPanel.kt:64-87 | the loop acts on each star independently: Survivors(a + b) = Survivors(a) + Survivors(b) |
| `StarField.StepAppendsNewStar` | src/main/java/net/adriantodt/asteroidsjpanel/RenderPanel.kt:48-87 | after a pass the new star is last, with age 1, unless its first step left the canvas |
| `StarField.StepLength` | src/main/java/net/adriantodt/asteroidsjpanel/RenderPanel.kt:48-87 | the length after a pass is the old length + 1 - the number removed |
| `StarField.StepAllVisible` | src/main/java/net/adriantodt/asteroidsjpanel/RenderPanel.kt:48-94 | every star left after a pass is on the canvas and has 1 <= age <= min(w, h) |
| `Panel.RenderPanel.constructor` | src/main/java/net/adriantodt/asteroidsjpanel/RenderPanel.kt:20-23 | one permit, zero counters, empty star list |
| `Panel.RenderPanel.Tick` | src/main/java/net/adriantodt/asteroidsjpanel/RenderPanel.kt:28-30 | adds exactly one permit and changes nothing else |
| `Panel.RenderPanel.Sample` | src/main/java/net/adriantodt/asteroidsjpanel/RenderPanel.kt:35-38 | the rate becomes the number of permitted passes since the previous sample; the snapshot becomes the frame count; the sampled rates sum to the frame count |
| `Panel.RenderPanel.Paint` | src/main/java/net/adriantodt/asteroidsjpanel/RenderPanel.kt:44-95 | with no permit, nothing changes; with one, exactly one permit is consumed, the frame count goes up by 1 and the list becomes Step(old list); the trails drawn are those of the kept stars, all on the canvas |
| `Panel.VisitTurn` | src/main/java/net/adriantodt/asteroidsjpanel/RenderPanel.kt:64-87 | at turn i of the loop the visited star sits in the live list just after the stars kept so far; ageing it in place or removing it there leaves the live list of the next turn; the survivors grow by the aged star exactly when it stays on the canvas |
| `Panel.RenderPanel.VisitInPlace` | src/main/java/net/adriantodt/asteroidsjpanel/RenderPanel.kt:64-94 | the loop body for the star at index k: it stays exactly when its aged position is on the canvas; then it is replaced by its aged copy and its trail is drawn, otherwise it is removed and nothing is drawn |
| `Panel.RenderPanel.Advance` | src/main/java/net/adriantodt/asteroidsjpanel/RenderPanel.kt:64-95 | the in-place loop over a snapshot leaves exactly Survivors(old list) and draws the trail of each kept star, in order |

## Left out

- Drawing is left out: clearing the canvas to black, rendering hints, the border, `getPreferredSize`, the text that shows the frame rate and the `JFrame` set-up in `main`. The model records only the squares of the trails, as `Square` values.
- Colour is left out. The new star's random HSB colour is a `Color` parameter of `Paint`. The darker shade of each trail square is not modelled, only its position and side.
- Kinematics.Entropy: this is an integer stand-in for a single-precision float computation. Where the float product falls within rounding error of a half, the source may round the other way.
- Kinematics.OffCanvas and Kinematics.Visible: these are the removal test `x > w || y > h` (source line 86) and its negation for a star, with no contract of their own. What they mean is stated by `VisitStar`, `VisitInPlace`, `SurvivorsMembership`, `SpawnOnCanvas`, `OffCanvasPersists` and `VisibleAgeBound`.
- Threads are left out. This covers the two scheduled executors, their timing, `repaint()`, and the atomicity of `Semaphore`, `AtomicLong`, `AtomicInteger` and `CopyOnWriteArrayList`. Each timer body and each paint callback is one sequential method call. Iterating over a snapshot becomes a loop over a copy of the list, so each star is visited exactly once.
- Integer widths are not modelled. Star arithmetic uses Kotlin `Int` and the counters use `Long`; the model uses unbounded integers. `VisibleAgeBound` bounds the age of a listed star by the canvas size, and `NextPositionBound` bounds the next position it gets by w + 7 and h + 7. The `Error` that `Semaphore.release` throws past `Int.MAX_VALUE` permits is not modelled.
- Removal by `Pair` equality is modelled by position. Each pair owns its own `AtomicInteger`, so `remove` always hits the visited element.
