/** What the rasterisers draw on: the pixels and horizontal spans asked for, in order. */
module Graphics {
  import opened Machine

  datatype Point = Point(x: int, y: int)

  /** A horizontal run of `w` pixels to the right of (x, y). */
  datatype Span = Span(x: int, y: int, w: int)

  class Canvas {
    var points: seq<Point>
    var spans: seq<Span>

    method DrawPixel(x: int16, y: int16)
      modifies `points
      ensures points == old(points) + [Point(x, y)]
    {
      points := points + [Point(x, y)];
    }

    method DrawFastHLine(x: int16, y: int16, w: int16)
      modifies `spans
      ensures spans == old(spans) + [Span(x, y, w)]
    {
      spans := spans + [Span(x, y, w)];
    }
  }
}
