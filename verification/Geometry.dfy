// Rectangles, pixels and images as the standard image package defines them.
module Geometry {

  /** Half-open: minX <= x < maxX and minY <= y < maxY. */
  datatype Rect = Rect(minX: int, minY: int, maxX: int, maxY: int) {

    function Dx(): int { maxX - minX }

    function Dy(): int { maxY - minY }

    predicate Empty() { minX >= maxX || minY >= maxY }

    predicate Has(x: int, y: int) { minX <= x < maxX && minY <= y < maxY }

    function Moved(dx: int, dy: int): Rect {
      Rect(minX + dx, minY + dy, maxX + dx, maxY + dy)
    }

    /** The points of both rectangles, and nothing else. */
    function Intersect(o: Rect): (r: Rect)
      ensures forall x, y :: r.Has(x, y) <==> Has(x, y) && o.Has(x, y)
      ensures !r.Empty() ==> o.minX <= r.minX < r.maxX <= o.maxX && o.minY <= r.minY < r.maxY <= o.maxY
    {
      var r := Rect(Max(minX, o.minX), Max(minY, o.minY), Min(maxX, o.maxX), Min(maxY, o.maxY));
      if r.Empty() then Rect(0, 0, 0, 0) else r
    }
  }

  function Max(a: int, b: int): int { if a < b then b else a }

  function Min(a: int, b: int): int { if a < b then a else b }

  type Channel = c: int | 0 <= c < 256

  datatype RGBA = RGBA(r: Channel, g: Channel, b: Channel, a: Channel)

  type Rows = seq<seq<RGBA>>

  ghost predicate Shape(rows: Rows, w: int, h: int) {
    && 0 <= w && 0 <= h && |rows| == h
    && forall y | 0 <= y < h :: |rows[y]| == w
  }

  /** A decoded picture: rows[y][x] is the pixel at bounds.min + (x, y). */
  datatype Image = Image(bounds: Rect, rows: Rows) {

    ghost predicate Valid() {
      Shape(rows, Max(bounds.Dx(), 0), Max(bounds.Dy(), 0))
    }

    function At(x: int, y: int): RGBA
      requires Valid() && bounds.Has(x, y)
    {
      rows[y - bounds.minY][x - bounds.minX]
    }
  }
}
