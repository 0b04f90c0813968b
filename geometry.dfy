/** Axis-aligned rectangles with the containment and intersection tests of the
    graphics toolkit's float rectangle: containment is half-open (the left and
    top edges belong to the rectangle, the right and bottom edges do not) and
    two rectangles intersect only when they share an area of positive size.
    Every rectangle in both programs has a positive width and height, so the
    toolkit's normalisation of negative sizes is not modelled. */
module Geometry {

  datatype Rect = Rect(left: real, top: real, width: real, height: real)

  function Right(r: Rect): real { r.left + r.width }

  function Bottom(r: Rect): real { r.top + r.height }

  function Max(a: real, b: real): real { if a < b then b else a }

  function Min(a: real, b: real): real { if a < b then a else b }

  /** Whether the point (x, y) lies inside r. */
  predicate Contains(r: Rect, x: real, y: real)
  {
    r.left <= x < Right(r) && r.top <= y < Bottom(r)
  }

  /** Whether a and b overlap: the overlap's left edge is strictly left of its
      right edge and its top edge strictly above its bottom edge. */
  predicate Intersects(a: Rect, b: Rect)
  {
    Max(a.left, b.left) < Min(Right(a), Right(b)) &&
    Max(a.top, b.top) < Min(Bottom(a), Bottom(b))
  }
}
