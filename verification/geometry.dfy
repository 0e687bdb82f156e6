/**
  The drawing vocabulary of the watchface: integer points on the display and
  the primitive drawing calls the ring code hands to the host graphics library.
  The calls are kept as values, so a redraw is modelled by the list of calls it
  makes rather than by the pixels they produce.
 */
module Geometry {

  datatype Point = Point(x: int, y: int)

  /** The two colours of the black-and-white display. */
  datatype Color = Black | White

  datatype DrawOp =
    | FillCircle(fill: Color, center: Point, radius: int)
    | StrokeCircle(stroke: Color, center: Point, radius: int)
    | FillPath(fill: Color, points: seq<Point>)
}
