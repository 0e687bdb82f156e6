/**
  The mask polygon of `draw_hider`: from a ring's centre and radius and a
  signed completion it computes the swept angle, the point where the sweep
  meets the circle, and the vertex list of the polygon that is filled in the
  background colour over the ring.

  The polygon starts at the top edge above the centre, runs down to the centre,
  out to the boundary point, and then around the edges of the ring's bounding
  square back to the top. Which edges it visits depends on the direction of the
  sweep and on whether it has passed half a turn, giving four templates.
 */
module Mask {
  import opened CArith
  import opened Geometry

  /** The host SDK's fixed-point trigonometry: `sinLookup` and `cosLookup`
      take an angle in units where `maxAngle` is a full turn and return a value
      scaled so that `maxRatio` stands for 1. Tables and constants belong to the
      SDK and are left abstract. */
  datatype Trig = Trig(maxAngle: int, maxRatio: int, sinLookup: int -> int, cosLookup: int -> int)

  /** The lookups stay within one unit of the fixed-point scale at angle `a`. */
  predicate BoundedAt(trig: Trig, a: int) {
    && -trig.maxRatio <= trig.sinLookup(a) <= trig.maxRatio
    && -trig.maxRatio <= trig.cosLookup(a) <= trig.maxRatio
  }

  /** The four vertex templates, named by sweep direction and vertex count. */
  datatype WedgeShape = ForwardFive | ForwardSeven | BackwardSix | BackwardSeven

  /** The swept angle: `|c|` percent of a full turn, rounded toward zero. */
  function Angle(trig: Trig, c: int): (a: int)
    ensures trig.maxAngle >= 0 ==> a >= 0 && a * 100 <= trig.maxAngle * Abs(c) < (a + 1) * 100
  {
    CDiv(trig.maxAngle * Abs(c), 100)
  }

  /** The offset from the centre to the sweep's boundary point, before the
      backward direction mirrors it: `(new_x, new_y)` of the source. */
  function BoundaryOffset(trig: Trig, radius: int, c: int): (off: Point)
    requires trig.maxRatio > 0
    ensures IsTruncatedQuotient(trig.sinLookup(Angle(trig, c)) * radius, trig.maxRatio, off.x)
    ensures IsTruncatedQuotient(-trig.cosLookup(Angle(trig, c)) * radius, trig.maxRatio, off.y)
    ensures radius >= 0 && BoundedAt(trig, Angle(trig, c)) ==>
              -radius <= off.x <= radius && -radius <= off.y <= radius
    ensures radius >= 0 && trig.sinLookup(Angle(trig, c)) >= 0 ==> off.x >= 0
  {
    var a := Angle(trig, c);
    CDivScaleFacts(trig.sinLookup(a), radius, trig.maxRatio);
    CDivScaleFacts(-trig.cosLookup(a), radius, trig.maxRatio);
    Point(CDiv(trig.sinLookup(a) * radius, trig.maxRatio),
          CDiv(-trig.cosLookup(a) * radius, trig.maxRatio))
  }

  /** The boundary point `(dx, dy)`: mirrored across the vertical through the
      centre when the completion is negative. */
  function BoundaryPoint(trig: Trig, center: Point, radius: int, c: int): (p: Point)
    requires trig.maxRatio > 0
    ensures radius >= 0 && BoundedAt(trig, Angle(trig, c)) ==>
              && center.x - radius <= p.x <= center.x + radius
              && center.y - radius <= p.y <= center.y + radius
    ensures radius >= 0 && trig.sinLookup(Angle(trig, c)) >= 0 ==>
              (c >= 0 ==> p.x >= center.x) && (c < 0 ==> p.x <= center.x)
    ensures IsTruncatedQuotient(trig.sinLookup(Angle(trig, c)) * radius, trig.maxRatio,
                                if c < 0 then center.x - p.x else p.x - center.x)
    ensures IsTruncatedQuotient(-trig.cosLookup(Angle(trig, c)) * radius, trig.maxRatio, p.y - center.y)
  {
    var off := BoundaryOffset(trig, radius, c);
    var dx := if c < 0 then center.x - off.x else off.x + center.x;
    Point(dx, off.y + center.y)
  }

  function ShapeOf(c: int): WedgeShape {
    if c < 0 then
      if Abs(c) <= 50 then BackwardSix else BackwardSeven
    else
      if c <= 50 then ForwardFive else ForwardSeven
  }

  /** The vertex list of one template around boundary point `b`. The edges sit
      one pixel outside the ring's bounding square; the backward six-vertex
      template repeats its last vertex, and the forward seven-vertex template
      closes its lower-left corner at `2 * center.y + 1`. */
  function Template(shape: WedgeShape, center: Point, radius: int, b: Point): seq<Point> {
    var left := -1;
    var right := center.x + radius + 1;
    var above := center.y - radius - 1;
    var below := center.y + radius + 1;
    var fan := [Point(center.x, 0), center, b];
    match shape
    case ForwardFive => fan + [Point(right, b.y), Point(right, above)]
    case ForwardSeven => fan + [Point(left, b.y), Point(left, 2 * center.y + 1), Point(right, below), Point(right, above)]
    case BackwardSix => fan + [Point(left, b.y), Point(left, above), Point(left, above)]
    case BackwardSeven => fan + [Point(right, b.y), Point(right, below), Point(left, below), Point(left, above)]
  }

  /** The mask polygon filled over a ring of centre `center` and radius
      `radius` for completion `c`. */
  function DrawHider(trig: Trig, center: Point, radius: int, c: int): (poly: seq<Point>)
    requires trig.maxRatio > 0
    ensures |poly| == 5 <==> 0 <= c <= 50
    ensures |poly| == 6 <==> -50 <= c < 0
    ensures |poly| == 7 <==> c > 50 || c < -50
    ensures poly[0] == Point(center.x, 0) && poly[1] == center
    ensures poly[2] == BoundaryPoint(trig, center, radius, c)
    ensures poly[3].y == poly[2].y
    ensures poly[|poly| - 1].y == center.y - radius - 1
    ensures forall i :: 3 <= i < |poly| ==> poly[i].x == -1 || poly[i].x == center.x + radius + 1
    ensures 0 <= c <= 50 ==>
              poly[3].x == center.x + radius + 1 && poly[4] == Point(center.x + radius + 1, center.y - radius - 1)
    ensures -50 <= c < 0 ==>
              poly[3].x == -1 && poly[4] == Point(-1, center.y - radius - 1) && poly[5] == poly[4]
    ensures c > 50 ==>
              && poly[3].x == -1 && poly[4] == Point(-1, 2 * center.y + 1)
              && poly[5] == Point(center.x + radius + 1, center.y + radius + 1)
              && poly[6].x == center.x + radius + 1
    ensures c < -50 ==>
              && poly[3].x == center.x + radius + 1
              && poly[4] == Point(center.x + radius + 1, center.y + radius + 1)
              && poly[5] == Point(-1, center.y + radius + 1)
              && poly[6].x == -1
  {
    Template(ShapeOf(c), center, radius, BoundaryPoint(trig, center, radius, c))
  }

  /** The swept angle depends only on the magnitude of the completion, is zero
      at zero, a full turn at a full completion, stays within one turn, and
      grows with the magnitude. */
  lemma AngleRange(trig: Trig, c: int)
    requires trig.maxAngle >= 0 && -100 <= c <= 100
    ensures Angle(trig, c) == Angle(trig, -c)
    ensures 0 <= Angle(trig, c) <= trig.maxAngle
    ensures c == 0 ==> Angle(trig, c) == 0
    ensures Abs(c) == 100 ==> Angle(trig, c) == trig.maxAngle
  {
    var p := trig.maxAngle * Abs(c);
    assert 0 <= p <= trig.maxAngle * 100;
    CDivNonNegative(p, 100);
    if Abs(c) == 100 {
      CDivExact(trig.maxAngle, 100);
    }
  }

  lemma AngleMonotone(trig: Trig, c1: int, c2: int)
    requires trig.maxAngle >= 0 && Abs(c1) <= Abs(c2)
    ensures Angle(trig, c1) <= Angle(trig, c2)
  {
    assert trig.maxAngle * Abs(c1) <= trig.maxAngle * Abs(c2);
    CDivNonNegative(trig.maxAngle * Abs(c1), 100);
    CDivNonNegative(trig.maxAngle * Abs(c2), 100);
  }

  /** Forward and backward sweeps of the same magnitude meet the circle at
      mirror images across the vertical through the centre. */
  lemma MirrorBoundary(trig: Trig, center: Point, radius: int, c: int)
    requires trig.maxRatio > 0
    ensures BoundaryPoint(trig, center, radius, -c).y == BoundaryPoint(trig, center, radius, c).y
    ensures c != 0 ==> BoundaryPoint(trig, center, radius, -c).x + BoundaryPoint(trig, center, radius, c).x == 2 * center.x
  {
  }

  /** The two templates of equal magnitude and opposite direction mirror each
      other vertex by vertex: same heights (except the forward seven-vertex
      template's lower-left corner), with the left edge `-1` and the right edge
      `center.x + radius + 1` exchanged. */
  lemma MirrorTemplates(trig: Trig, center: Point, radius: int, c: int)
    requires trig.maxRatio > 0 && c > 0
    ensures var fwd := DrawHider(trig, center, radius, c);
            var back := DrawHider(trig, center, radius, -c);
            && |back| == |fwd| + (if c <= 50 then 1 else 0)
            && (forall i :: 0 <= i < |fwd| && !(c > 50 && i == 4) ==> back[i].y == fwd[i].y)
            && (forall i :: 3 <= i < |fwd| && fwd[i].x == -1 ==> back[i].x == center.x + radius + 1)
            && (forall i :: 3 <= i < |fwd| && fwd[i].x == center.x + radius + 1 ==> back[i].x == -1)
  {
  }

  /** The backward six-vertex template repeats its last vertex. */
  lemma BackwardSixRepeatsLast(trig: Trig, center: Point, radius: int, c: int)
    requires trig.maxRatio > 0 && -50 <= c < 0
    ensures DrawHider(trig, center, radius, c)[4] == DrawHider(trig, center, radius, c)[5]
  {
  }

  /** The forward seven-vertex template turns its lower-left corner at height
      `2 * center.y + 1` rather than one pixel below the circle; that corner
      lies below the circle exactly when the radius does not exceed `center.y`. */
  lemma ForwardSevenCorner(trig: Trig, center: Point, radius: int, c: int)
    requires trig.maxRatio > 0 && c > 50
    ensures DrawHider(trig, center, radius, c)[4] == Point(-1, 2 * center.y + 1)
    ensures DrawHider(trig, center, radius, c)[4].y > center.y + radius <==> radius <= center.y
  {
  }

  /** With lookups bounded by the fixed-point scale, the boundary point lies in
      the ring's bounding square. */
  lemma BoundaryInSquare(trig: Trig, center: Point, radius: nat, c: int)
    requires trig.maxRatio > 0 && BoundedAt(trig, Angle(trig, c))
    ensures var p := BoundaryPoint(trig, center, radius, c);
            && center.x - radius <= p.x <= center.x + radius
            && center.y - radius <= p.y <= center.y + radius
  {
    var a := Angle(trig, c);
    CDivScaleBound(trig.sinLookup(a), radius, trig.maxRatio);
    CDivScaleBound(-trig.cosLookup(a), radius, trig.maxRatio);
  }

  /** Up to half a turn the mask stays on the side of the vertical through the
      centre that the sweep is on, provided the sine table is non-negative at
      the swept angle: right of it going forward, left of it going backward. */
  lemma MaskOnSweptSide(trig: Trig, center: Point, radius: nat, c: int)
    requires trig.maxRatio > 0 && center.x >= -1 && -50 <= c <= 50
    requires trig.sinLookup(Angle(trig, c)) >= 0
    ensures var poly := DrawHider(trig, center, radius, c);
            && (c >= 0 ==> forall i :: 0 <= i < |poly| ==> poly[i].x >= center.x)
            && (c < 0 ==> forall i :: 0 <= i < |poly| ==> poly[i].x <= center.x)
  {
    var s := trig.sinLookup(Angle(trig, c));
    assert s * radius >= 0;
    CDivNonNegative(s * radius, trig.maxRatio);
  }

  /** The boundary point of a zero completion is the top of the circle, when
      the tables give sine 0 and cosine 1 at angle 0. */
  lemma BoundaryAtZero(trig: Trig, center: Point, radius: int)
    requires trig.maxRatio > 0
    requires trig.sinLookup(0) == 0 && trig.cosLookup(0) == trig.maxRatio
    ensures BoundaryPoint(trig, center, radius, 0) == Point(center.x, center.y - radius)
  {
    assert Angle(trig, 0) == 0;
    CDivExact(-radius, trig.maxRatio);
    assert -trig.maxRatio * radius == -radius * trig.maxRatio;
  }

  /** A full completion in either direction wraps around to the top of the
      circle, when the tables give sine 0 and cosine 1 at a full turn. */
  lemma BoundaryAtFullTurn(trig: Trig, center: Point, radius: int, c: int)
    requires trig.maxRatio > 0 && trig.maxAngle >= 0 && Abs(c) == 100
    requires trig.sinLookup(trig.maxAngle) == 0 && trig.cosLookup(trig.maxAngle) == trig.maxRatio
    ensures BoundaryPoint(trig, center, radius, c) == Point(center.x, center.y - radius)
  {
    AngleRange(trig, c);
    CDivExact(-radius, trig.maxRatio);
    assert -trig.maxRatio * radius == -radius * trig.maxRatio;
  }

  /** Half a turn in either direction reaches the bottom of the circle, when
      the tables give sine 0 and cosine -1 at half a turn. */
  lemma BoundaryAtHalfTurn(trig: Trig, center: Point, radius: int, c: int)
    requires trig.maxRatio > 0 && trig.maxAngle >= 0 && Abs(c) == 50
    requires trig.sinLookup(trig.maxAngle / 2) == 0 && trig.cosLookup(trig.maxAngle / 2) == -trig.maxRatio
    ensures BoundaryPoint(trig, center, radius, c) == Point(center.x, center.y + radius)
  {
    CDivNonNegative(trig.maxAngle * 50, 100);
    assert Angle(trig, c) == trig.maxAngle / 2;
    CDivExact(radius, trig.maxRatio);
    assert -(-trig.maxRatio) * radius == radius * trig.maxRatio;
  }

  /** On the SDK's scale (a full turn of at most 0x10000, a unit ratio of at
      most 0xffff, lookups within the scale) and for completions within one
      turn and 16-bit radii, every product in `draw_hider` fits a 32-bit `int`,
      so the model's unbounded integers agree with the C arithmetic. */
  lemma NoOverflow(trig: Trig, radius: int, c: int)
    requires 0 <= trig.maxAngle <= 0x10000 && 0 < trig.maxRatio <= 0xffff
    requires -100 <= c <= 100 && IsInt16(radius)
    requires BoundedAt(trig, Angle(trig, c))
    ensures IsInt32(trig.maxAngle * Abs(c))
    ensures IsInt32(trig.sinLookup(Angle(trig, c)) * radius)
    ensures IsInt32(-trig.cosLookup(Angle(trig, c)) * radius)
  {
    var a := Angle(trig, c);
    MulBound(trig.maxAngle, Abs(c), 0x10000, 100);
    ProductBound(trig.sinLookup(a), radius);
    ProductBound(-trig.cosLookup(a), radius);
  }

  /** For centres and radii that fit the display comfortably (at most 0x1000
      pixels) and lookups within the scale, every vertex of the mask fits the
      16-bit coordinates of the SDK's points. */
  lemma VerticesFitInt16(trig: Trig, center: Point, radius: nat, c: int)
    requires trig.maxRatio > 0 && BoundedAt(trig, Angle(trig, c))
    requires 0 <= center.x <= 0x1000 && 0 <= center.y <= 0x1000 && radius <= 0x1000
    ensures var poly := DrawHider(trig, center, radius, c);
            forall i :: 0 <= i < |poly| ==> IsInt16(poly[i].x) && IsInt16(poly[i].y)
  {
    BoundaryInSquare(trig, center, radius, c);
  }
}
