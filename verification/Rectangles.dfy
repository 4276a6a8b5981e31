/** Rectangles in screen coordinates; `bottom` is the smaller y. */
module Rectangles {
  datatype Rectangle = Rectangle(left: int, right: int, top: int, bottom: int)
  {
    function Width(): int { right - left }

    function Height(): int { top - bottom }

    function Area(): int { Width() * Height() }

    predicate Overlap(r: Rectangle) {
      left < r.right && right > r.left && top > r.bottom && bottom < r.top
    }

    predicate OverlapOrTouching(r: Rectangle) {
      left < r.right + 1 && right > r.left - 1 && top > r.bottom - 1 && bottom < r.top + 1
    }

    predicate Contains(r: Rectangle) {
      left <= r.left && right >= r.right && top >= r.top && bottom <= r.bottom
    }

    /** `operator+=`: the rectangle is replaced by the bounding box of both. */
    function Extend(r: Rectangle): Rectangle {
      Rectangle(Min(r.left, left), Max(r.right, right), Max(r.top, top), Min(r.bottom, bottom))
    }

    /** The point (x, y) belongs to the closed rectangle. */
    predicate HasPoint(x: int, y: int) {
      left <= x <= right && bottom <= y <= top
    }

    predicate Positive() { left < right && bottom < top }

    predicate Wide() { left < right && bottom <= top }

    predicate Ordered() { left <= right && bottom <= top }

    /** The unit cell whose lower left corner is (x, y) belongs to the rectangle. */
    predicate HasCell(x: int, y: int) {
      left <= x < right && bottom <= y < top
    }
  }

  /** The closed rectangles have a point in common. */
  ghost predicate SharePoint(a: Rectangle, b: Rectangle) {
    exists x, y :: a.HasPoint(x, y) && b.HasPoint(x, y)
  }

  /** Rectangles overlap or touch exactly when they have a point in common. */
  lemma TouchIffSharePoint(a: Rectangle, b: Rectangle)
    requires a.Ordered() && b.Ordered()
    ensures a.OverlapOrTouching(b) <==> SharePoint(a, b)
  {
    if a.OverlapOrTouching(b) {
      assert a.HasPoint(Max(a.left, b.left), Max(a.bottom, b.bottom));
      assert b.HasPoint(Max(a.left, b.left), Max(a.bottom, b.bottom));
    }
  }

  /** They overlap exactly when they have a cell in common. */
  lemma OverlapIffShareCell(a: Rectangle, b: Rectangle)
    requires a.Positive() && b.Positive()
    ensures a.Overlap(b) <==> exists x, y :: a.HasCell(x, y) && b.HasCell(x, y)
  {
    if a.Overlap(b) {
      assert a.HasCell(Max(a.left, b.left), Max(a.bottom, b.bottom));
      assert b.HasCell(Max(a.left, b.left), Max(a.bottom, b.bottom));
    }
  }

  /** The four-argument constructor. */
  function At(x: int, y: int, width: int, height: int): Rectangle {
    Rectangle(x, x + width, y + height, y)
  }

  function Min(a: int, b: int): int { if a < b then a else b }

  function Max(a: int, b: int): int { if a > b then a else b }
}
