# Round clock watchface — Dafny model

This project models the geometry of a Pebble watchface that shows the time as
two rings: an hour ring spanning the display and a smaller minute ring inside
it. No arc primitive exists on the device. So each ring is drawn as a white
disk with a black inner disk on top, and then a black "hider" polygon is filled
over part of the annulus. What remains visible is an arc.

The model covers the logic of `src/main.c`:

- **Clock** — the signed completion values of the two rings, derived from the
  hour and minute (`draw_minutes_layer`, `draw_hours_layer`). The sign selects
  the sweep direction. The minute ring reverses on odd hours. The hour ring is
  negative before noon.
- **Mask** — `draw_hider`. It computes the swept angle and the boundary point
  where the sweep meets the circle. It then picks one of four vertex templates:
  forward with 5 vertices, forward with 7, backward with 6, backward with 7.
  The SDK's `sin_lookup`/`cos_lookup` and the constants `TRIG_MAX_ANGLE` and
  `TRIG_MAX_RATIO` are a `Trig` value passed in. Their tables and values are
  left abstract. Lemmas that need facts about them (the sine at angle 0, say)
  take those facts as hypotheses.
- **Rings** — `draw_circle`, `draw_layer`, `draw_structure_circles` and the
  four layer update procedures. Each is a pure function that returns the list
  of drawing calls it makes (`Geometry.DrawOp`), not pixels.
- **CArith** — C integer semantics. All divisors in the source are positive
  constants. `CDiv` is C's truncating division by such a divisor. It is used
  wherever a dividend can be negative. The fixed-width predicates back the
  no-overflow lemmas that justify using unbounded integers.

The time is an explicit `ClockTime(hour, minute)` argument, not the global
`now`. Every operation is a pure function, so a redraw with the same time
always produces the same calls.

Three behaviours of the code are easy to misread; the model follows the code:

- At 00:00 the minute completion is 0, not -100. Hour 0 is even, so no
  full-turn shift is applied (`Clock.CompletionAtMidnight`).
- The hider polygon covers the wedge of `|c|` percent that starts at the top.
  Forward sweeps run clockwise and backward sweeps counter-clockwise. The
  visible arc is therefore the remaining `100 - |c|` percent, not `|c|`.
  Example: for `c = 25` the forward template covers the top-right quadrant.
- Both structure layers call `draw_structure_circles` with a count of 3, not
  with the ring's stroke width. That gives three outlines at each ring edge.

## Model

| member | source | states |
|---|---|---|
| `CArith.CDiv` | src/main.c:20-24 | C's `/` by a positive divisor: the quotient has the dividend's sign and its magnitude is the largest `m` with `m*b <= abs(a)` (truncation toward zero); `CArith.CDivTruncates` and `CArith.CDivNegate` state the remainder rule and the symmetry |
| `CArith.CDivTruncates` | src/main.c:22-24 | C division's remainder is smaller than the divisor in magnitude and never has the opposite sign of the dividend, i.e. the quotient truncates toward zero |
| `CArith.CDivNegate` | src/main.c:22-24 | truncating division is symmetric about zero: negating the dividend negates the quotient |
| `CArith.CDivScaleBound` | src/main.c:22-24 | scaling a radius by a lookup value within the fixed-point unit gives an offset no longer than the radius |
| `Clock.HalfDayMinutes` | src/main.c:131 | minutes since the start of the half-day: below 720, `hour*60+minute` before noon and `(hour-12)*60+minute` after |
| `Clock.MinuteCompletion` | src/main.c:125-126 | the minute completion lies in [-100, 98]; it is negative iff the hour is odd; after undoing the odd-hour shift it is the largest integer `s` with `60*s <= 100*minute` |
| `Clock.HourCompletion` | src/main.c:131-132 | the hour completion lies in [-100, 99]; it is negative iff the hour is before 12; after undoing the morning shift it is the largest `s` with `720*s <= 100*halfDayMinutes` |
| `Clock.MinuteCompletionMonotone` | src/main.c:125-126 | within one hour the minute completion never decreases as the minute grows |
| `Clock.HourCompletionMonotone` | src/main.c:131-132 | within one half-day the hour completion never decreases as the time advances |
| `Clock.CompletionAtMidnight` | src/main.c:125-132 | at 00:00 the hour completion is -100 and the minute completion is 0 |
| `Clock.CompletionAtNoon` | src/main.c:125-132 | at 12:00 both completions are 0 |
| `Clock.CompletionAtHalfPastOne` | src/main.c:125-132 | at 13:30 the hour completion is 12 and the minute completion is -50 |
| `Clock.MinuteDirectionAlternates` | src/main.c:126 | at the same minute of consecutive hours, including 23 followed by 0, the minute ring sweeps in opposite directions |
| `Mask.DrawHider` | src/main.c:19-77 | the polygon has 5 vertices iff 0 <= c <= 50, 6 iff -50 <= c < 0, 7 iff abs(c) > 50; it starts (center.x, 0), center, boundary point; its 4th vertex is at the boundary height and its last one at `center.y - radius - 1`; every later vertex lies on the left edge -1 or the right edge `center.x+radius+1`: forward up to 50% goes right then to the top-right corner, backward up to 50% goes left and repeats the top-left corner, forward past 50% goes left, to `(-1, 2*center.y+1)`, to the bottom-right corner `(center.x+radius+1, center.y+radius+1)` and up the right edge, backward past 50% goes right, to the bottom-right corner, to the bottom-left corner `(-1, center.y+radius+1)` and up the left edge |
| `Mask.Angle` | src/main.c:20 | for a non-negative full turn, the angle is the largest non-negative `a` with `100*a <= TRIG_MAX_ANGLE*abs(c)`; `Mask.AngleRange` and `Mask.AngleMonotone` give its range, end values, sign symmetry and monotonicity |
| `Mask.BoundaryOffset` | src/main.c:22-24 | `new_x` and `new_y` are `sin*radius` and `-cos*radius` divided by TRIG_MAX_RATIO with truncation toward zero; with a non-negative radius and lookups within the unit they lie in [-radius, radius], and `new_x >= 0` when the sine is non-negative |
| `Mask.BoundaryPoint` | src/main.c:25-54 | `dx` is `center.x + new_x` going forward and `center.x - new_x` going backward and `dy` is `center.y + new_y`, with `new_x`, `new_y` the truncated quotients of `BoundaryOffset`; `(dx, dy)` lies in the ring's bounding square when the lookups stay within the unit; with a non-negative sine it is right of the centre's vertical going forward and left of it going backward; `Mask.MirrorBoundary` states the mirror image between the two directions |
| `Mask.AngleRange` | src/main.c:20 | for abs(c) <= 100 the angle depends only on abs(c), lies in [0, TRIG_MAX_ANGLE], is 0 at c = 0 and TRIG_MAX_ANGLE at abs(c) = 100 |
| `Mask.AngleMonotone` | src/main.c:20 | the angle never decreases as abs(c) grows |
| `Mask.MirrorBoundary` | src/main.c:22-54 | completions c and -c give boundary points at the same height whose x coordinates sum to `2*center.x` |
| `Mask.MirrorTemplates` | src/main.c:27-76 | for c > 0 the backward polygon of -c mirrors the forward one of c: one more vertex up to 50%, the same heights index by index (apart from the forward 7-vertex lower-left corner), and the left (-1) and right (`center.x+radius+1`) edges exchanged |
| `Mask.BackwardSixRepeatsLast` | src/main.c:31-39 | the backward 6-vertex template's last two vertices are equal |
| `Mask.ForwardSevenCorner` | src/main.c:66-75 | the forward 7-vertex template's 5th vertex is `(-1, 2*center.y+1)`; it lies below the circle iff `radius <= center.y` |
| `Mask.BoundaryInSquare` | src/main.c:22-29 | with lookups within the fixed-point unit, the boundary point lies in the ring's bounding square |
| `Mask.MaskOnSweptSide` | src/main.c:27-64 | up to half a turn, with a non-negative sine, every forward vertex is right of the centre's vertical and every backward vertex left of it |
| `Mask.BoundaryAtZero` | src/main.c:20-25 | with sin 0 and cos 1 at angle 0, completion 0 meets the circle at its top |
| `Mask.BoundaryAtFullTurn` | src/main.c:20-25 | with sin 0 and cos 1 at a full turn, completion +-100 meets the circle at its top again |
| `Mask.BoundaryAtHalfTurn` | src/main.c:20-25 | with sin 0 and cos -1 at half a turn, completion +-50 meets the circle at its bottom |
| `Mask.NoOverflow` | src/main.c:20-24 | with the SDK's scale bounds, abs(c) <= 100 and a 16-bit radius, the products in the angle and boundary computations fit a 32-bit int |
| `Mask.VerticesFitInt16` | src/main.c:32-74 | for centre and radius up to 0x1000, every vertex fits the 16-bit coordinates of a point |
| `Rings.LayerRing` | src/main.c:99-103 | the ring's centre is half the layer's width and height, rounded toward zero; its radius is one less than the centre's x |
| `Rings.DrawCircle` | src/main.c:83-89 | a white disk of radius `radius` at the centre, a black disk of the same centre whose radius is `stroke_width` smaller, then the black mask polygon for the outer radius |
| `Rings.DrawLayer` | src/main.c:98-104 | the ring of a layer is drawn with the centre and radius derived from the layer's bounds |
| `Rings.MinutesLayer` | src/main.c:124-128 | the minute ring is the layer ring's white disk, a black disk 14 pixels smaller, and the mask for the layer ring at `MinuteCompletion(t)` filled black; the mask has 5 vertices up to :30 of an even hour, 6 from :30 of an odd hour, and 7 otherwise |
| `Rings.HoursLayer` | src/main.c:130-134 | the hour ring is the layer ring's white disk, a black disk 22 pixels smaller, and the mask for the layer ring at `HourCompletion(t)` filled black; the mask has 5 vertices from 12:00 to 18:07, 6 from 06:00 to 11:59, and 7 otherwise |
| `Rings.StructureCircles` | src/main.c:91-96 | exactly max(n, 0) white outlines; the i-th has radius `radius - i` |
| `Rings.StructureRadii` | src/main.c:93-95 | the outline radii strictly decrease and are exactly the integers in (radius - n, radius] |
| `Rings.StructureLayer` | src/main.c:106-122 | six white outlines at the layer's centre: three from the ring radius inward and three from `radius - strokeWidth` inward |
| `Rings.HoursStructureLayer` | src/main.c:106-113 | outlines at radii r, r-1, r-2, r-22, r-23, r-24 about the layer centre |
| `Rings.MinutesStructureLayer` | src/main.c:115-122 | outlines at radii r, r-1, r-2, r-14, r-15, r-16 about the layer centre |
| `Rings.OutlinesTraceRingEdges` | src/main.c:98-134 | a structure layer traces the edges of the ring layer with the same bounds: its 1st outline matches the white disk and its 4th the black inner disk |

## Left out

- Window, layer and timer lifecycle (`init`, `deinit`, `main`, `main_window_load`, `main_window_unload`, `tick_handler`, `layer_mark_dirty`): event-loop plumbing with no computation of its own.
- `initializeTime` and the global `now`: `time`/`gmtime` read the system clock. The time is a parameter instead.
- `get_bound_of_minute_circle`: floating-point scaling of the window bounds (0.26 and 0.48). The minute layer's size is a parameter like any other layer size.
- The contents of the SDK's sine and cosine tables and the values of `TRIG_MAX_ANGLE` and `TRIG_MAX_RATIO`. They are part of the SDK and are abstract here. Facts about them appear only as lemma hypotheses.
- `gpath_create`, `gpath_draw_filled`, the path handle written to a by-value parameter and never freed, and the `graphics_*` calls. These are the SDK's drawing primitives. The model keeps only their arguments: centres, radii, vertex lists and colours.
- The stroke colour set to black just before the path is filled (line 79) does not appear. Filling a path uses the fill colour, which line 86 leaves black.
- The SDK passes circle radii as unsigned 16-bit values. The model keeps them as signed integers. Layers narrower than their stroke would give negative radii, and their wrap-around is not modelled.
- The SDK stores vertices in 16-bit points. `Mask.VerticesFitInt16` shows that no truncation happens for realistic sizes; larger coordinates are not truncated in the model.
- `CArith.CDiv`: defined for positive divisors only, since every division in the source divides by a positive constant (100, 2, `TRIG_MAX_RATIO`, 60, 720).
- The lifetime of the vertex arrays. Each template in `draw_hider` is a compound literal inside an if/else block (lines 32-39, 42-50, 57-63, 67-75), so its storage ends with that block (sections 6.5.2.5 and 6.8.4 of ISO/IEC 9899:2011), yet `gpath_create` reads `gp_info.points` after the blocks close (line 78). In C that read is undefined behaviour. The model assumes the intended vertices reach the fill, as in `Rings.DrawCircle`, `Rings.MinutesLayer` and `Rings.HoursLayer`.
