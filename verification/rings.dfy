/**
  The ring compositor and the structure outlines: the drawing calls each layer
  of the watchface makes when it is redrawn.

  A ring layer fills a white disk, fills a black disk `strokeWidth` smaller on
  top of it, and then fills the mask polygon in black, leaving an arc of the
  white annulus visible. A structure layer strokes thin white circles at the
  outer and inner edges of the ring that shares its bounds.
 */
module Rings {
  import opened CArith
  import opened Geometry
  import opened Clock
  import opened Mask

  const HoursStrokeWidth := 22
  const MinutesStrokeWidth := 14

  /** Outline circles stroked at each edge of a ring. */
  const OutlineWidth := 3

  /** The size of a layer's bounds; bounds start at the layer's own origin. */
  datatype Size = Size(w: int, h: int)

  datatype Ring = Ring(center: Point, radius: int)

  /** The ring inscribed in a layer: centred on the layer's midpoint (halves
      rounded toward zero), with a radius one pixel short of half the width. */
  function LayerRing(size: Size): (ring: Ring)
    ensures ring.radius == ring.center.x - 1
    ensures size.w >= 0 ==> 2 * ring.center.x <= size.w <= 2 * ring.center.x + 1
    ensures size.w < 0 ==> 2 * ring.center.x - 1 <= size.w <= 2 * ring.center.x
    ensures size.h >= 0 ==> 2 * ring.center.y <= size.h <= 2 * ring.center.y + 1
    ensures size.h < 0 ==> 2 * ring.center.y - 1 <= size.h <= 2 * ring.center.y
  {
    var center := Point(CDiv(size.w, 2), CDiv(size.h, 2));
    Ring(center, center.x - 1)
  }

  /** The calls of one ring: a white disk, a black inner disk that leaves an
      annulus `strokeWidth` wide, and the black mask polygon for `c`. The mask's
      colour is the fill colour the inner disk left set. */
  function DrawCircle(trig: Trig, center: Point, radius: int, strokeWidth: int, c: int): (ops: seq<DrawOp>)
    requires trig.maxRatio > 0
    ensures |ops| == 3
    ensures ops[0].FillCircle? && ops[1].FillCircle? && ops[2].FillPath?
    ensures ops[0].center == center && ops[1].center == center
    ensures ops[0].radius == radius
    ensures ops[0].radius - ops[1].radius == strokeWidth
    ensures ops[0].fill == White && ops[1].fill == Black && ops[2].fill == Black
    ensures ops[2].points == DrawHider(trig, center, radius, c)
  {
    [ FillCircle(White, center, radius),
      FillCircle(Black, center, radius - strokeWidth),
      FillPath(Black, DrawHider(trig, center, radius, c)) ]
  }

  /** One ring layer: the ring inscribed in the layer's bounds. */
  function DrawLayer(trig: Trig, size: Size, strokeWidth: int, c: int): (ops: seq<DrawOp>)
    requires trig.maxRatio > 0
    ensures |ops| == 3
    ensures ops[0] == FillCircle(White, LayerRing(size).center, LayerRing(size).radius)
    ensures ops[1] == FillCircle(Black, LayerRing(size).center, LayerRing(size).radius - strokeWidth)
    ensures ops[2] == FillPath(Black, DrawHider(trig, LayerRing(size).center, LayerRing(size).radius, c))
  {
    var ring := LayerRing(size);
    DrawCircle(trig, ring.center, ring.radius, strokeWidth, c)
  }

  /** The minute ring at time `t`. Its mask is the forward five-vertex
      template up to half past an even hour, the backward six-vertex one from
      half past an odd hour, and a seven-vertex one otherwise. */
  function MinutesLayer(trig: Trig, size: Size, t: ClockTime): (ops: seq<DrawOp>)
    requires trig.maxRatio > 0
    ensures |ops| == 3 && ops[2].FillPath?
    ensures ops[0] == FillCircle(White, LayerRing(size).center, LayerRing(size).radius)
    ensures ops[1] == FillCircle(Black, LayerRing(size).center, LayerRing(size).radius - MinutesStrokeWidth)
    ensures ops[2] == FillPath(Black, DrawHider(trig, LayerRing(size).center, LayerRing(size).radius, MinuteCompletion(t)))
    ensures |ops[2].points| == 5 <==> t.hour % 2 == 0 && t.minute <= 30
    ensures |ops[2].points| == 6 <==> t.hour % 2 == 1 && t.minute >= 30
    ensures |ops[2].points| == 7 <==> (t.hour % 2 == 0 && t.minute > 30) || (t.hour % 2 == 1 && t.minute < 30)
  {
    DrawLayer(trig, size, MinutesStrokeWidth, MinuteCompletion(t))
  }

  /** The hour ring at time `t`. Rounding down the completion makes its mask
      switch templates at 06:00 going backward and only after 18:07 going
      forward. */
  function HoursLayer(trig: Trig, size: Size, t: ClockTime): (ops: seq<DrawOp>)
    requires trig.maxRatio > 0
    ensures |ops| == 3 && ops[2].FillPath?
    ensures ops[0] == FillCircle(White, LayerRing(size).center, LayerRing(size).radius)
    ensures ops[1] == FillCircle(Black, LayerRing(size).center, LayerRing(size).radius - HoursStrokeWidth)
    ensures ops[2] == FillPath(Black, DrawHider(trig, LayerRing(size).center, LayerRing(size).radius, HourCompletion(t)))
    ensures |ops[2].points| == 5 <==> 12 <= t.hour && (t.hour < 18 || (t.hour == 18 && t.minute <= 7))
    ensures |ops[2].points| == 6 <==> 6 <= t.hour < 12
    ensures |ops[2].points| == 7 <==> t.hour < 6 || (t.hour == 18 && t.minute > 7) || t.hour > 18
  {
    DrawLayer(trig, size, HoursStrokeWidth, HourCompletion(t))
  }

  /** `n` concentric white outlines stepping inward one pixel at a time from
      `radius`; none when `n` is not positive. */
  function StructureCircles(center: Point, radius: int, n: int): (ops: seq<DrawOp>)
    ensures |ops| == if n < 0 then 0 else n
    ensures forall i :: 0 <= i < |ops| ==> ops[i] == StrokeCircle(White, center, radius - i)
    decreases n
  {
    if n <= 0 then [] else StructureCircles(center, radius, n - 1) + [StrokeCircle(White, center, radius - (n - 1))]
  }

  /** The outlines' radii are strictly decreasing and are exactly the integers
      in `(radius - n, radius]`. */
  lemma StructureRadii(center: Point, radius: int, n: int)
    ensures var ops := StructureCircles(center, radius, n);
            && (forall i, j :: 0 <= i < j < |ops| ==> ops[j].radius < ops[i].radius)
            && (forall i :: 0 <= i < |ops| ==> radius - n < ops[i].radius <= radius)
            && (forall k :: radius - n < k <= radius ==> ops[radius - k] == StrokeCircle(White, center, k))
  {
  }

  /** The outlines of a structure layer whose ring is `strokeWidth` wide: three
      at the ring's outer edge and three at its inner edge. */
  function StructureLayer(size: Size, strokeWidth: int): (ops: seq<DrawOp>)
    ensures |ops| == 2 * OutlineWidth
    ensures forall i :: 0 <= i < |ops| ==> ops[i].StrokeCircle? && ops[i].stroke == White && ops[i].center == LayerRing(size).center
    ensures forall i :: 0 <= i < OutlineWidth ==> ops[i].radius == LayerRing(size).radius - i
    ensures forall i :: OutlineWidth <= i < |ops| ==> ops[i].radius == LayerRing(size).radius - strokeWidth - (i - OutlineWidth)
  {
    var ring := LayerRing(size);
    StructureCircles(ring.center, ring.radius, OutlineWidth)
      + StructureCircles(ring.center, ring.radius - strokeWidth, OutlineWidth)
  }

  /** The hours ring's outlines: radii `r`, `r - 1`, `r - 2` at the outer
      edge and `r - 22` to `r - 24` at the inner edge, `r` the ring's radius. */
  function HoursStructureLayer(size: Size): (ops: seq<DrawOp>)
    ensures |ops| == 6
    ensures forall i :: 0 <= i < |ops| ==> ops[i].StrokeCircle? && ops[i].stroke == White
    ensures forall i :: 0 <= i < |ops| ==> ops[i].center == LayerRing(size).center
    ensures var r := LayerRing(size).radius;
            && ops[0].radius == r && ops[1].radius == r - 1 && ops[2].radius == r - 2
            && ops[3].radius == r - HoursStrokeWidth && ops[4].radius == r - HoursStrokeWidth - 1
            && ops[5].radius == r - HoursStrokeWidth - 2
  {
    StructureLayer(size, HoursStrokeWidth)
  }

  /** The minutes ring's outlines: radii `r`, `r - 1`, `r - 2` at the outer
      edge and `r - 14` to `r - 16` at the inner edge, `r` the ring's radius. */
  function MinutesStructureLayer(size: Size): (ops: seq<DrawOp>)
    ensures |ops| == 6
    ensures forall i :: 0 <= i < |ops| ==> ops[i].StrokeCircle? && ops[i].stroke == White
    ensures forall i :: 0 <= i < |ops| ==> ops[i].center == LayerRing(size).center
    ensures var r := LayerRing(size).radius;
            && ops[0].radius == r && ops[1].radius == r - 1 && ops[2].radius == r - 2
            && ops[3].radius == r - MinutesStrokeWidth && ops[4].radius == r - MinutesStrokeWidth - 1
            && ops[5].radius == r - MinutesStrokeWidth - 2
  {
    StructureLayer(size, MinutesStrokeWidth)
  }

  /** A structure layer sharing its bounds with a ring layer traces that ring's
      edges: its first outline is the white disk's rim and its fourth the black
      inner disk's rim, whatever the time. */
  lemma OutlinesTraceRingEdges(trig: Trig, size: Size, t: ClockTime)
    requires trig.maxRatio > 0
    ensures var ring := HoursLayer(trig, size, t);
            var outline := HoursStructureLayer(size);
            && outline[0].center == ring[0].center && outline[0].radius == ring[0].radius
            && outline[3].center == ring[1].center && outline[3].radius == ring[1].radius
    ensures var ring := MinutesLayer(trig, size, t);
            var outline := MinutesStructureLayer(size);
            && outline[0].center == ring[0].center && outline[0].radius == ring[0].radius
            && outline[3].center == ring[1].center && outline[3].radius == ring[1].radius
  {
  }
}
