/**
 * Integer page geometry of the matrix view.  The browser reports boxes
 * (`getCoordinates`, `getPosition`, `offsetHeight`, the `margin-bottom`
 * style); the model receives them as plain integers.
 */
module Geometry {
  /** An axis-aligned box in page coordinates: right = left + width, bottom = top + height. */
  datatype Box = Box(left: int, top: int, right: int, bottom: int)

  /** The layout of one list item: its box and its bottom margin in pixels. */
  datatype Item = Item(box: Box, marginBottom: int)

  /** `offsetHeight` of an item. */
  function Height(it: Item): int { it.box.bottom - it.box.top }

  /**
   * `Position.within(element, x, y)`: the point lies in the element's box,
   * counting the left and top edges in and the right and bottom edges out.
   */
  predicate Within(b: Box, x: int, y: int) {
    b.left <= x < b.right && b.top <= y < b.bottom
  }

  function Min(a: int, b: int): int { if a <= b then a else b }
  function Max(a: int, b: int): int { if a <= b then b else a }
  function Abs(a: int): int { if a < 0 then -a else a }

  /** The style of the selection area: position relative to the container, and size. */
  datatype Rect = Rect(left: int, top: int, width: int, height: int)

  /**
   * The rubber band between the drag origin and the pointer, normalised so
   * that its size is never negative, then made relative to the container
   * at (containerX, containerY).
   */
  function DragRect(originX: int, originY: int, x: int, y: int, containerX: int, containerY: int): (r: Rect)
    ensures r.width >= 0 && r.height >= 0
    ensures r.width == Abs(x - originX) && r.height == Abs(y - originY)
    ensures r.left == Min(originX, x) - containerX
    ensures r.top == Min(originY, y) - containerY
  {
    var width := x - originX;
    var height := y - originY;
    var left := if width < 0 then x else originX;
    var top := if height < 0 then y else originY;
    Rect(left - containerX, top - containerY,
         if width < 0 then -width else width,
         if height < 0 then -height else height)
  }

  /** Where the selection area ends up on the page once styled inside the container. */
  function AreaBox(r: Rect, containerX: int, containerY: int): Box {
    Box(r.left + containerX, r.top + containerY,
        r.left + containerX + r.width, r.top + containerY + r.height)
  }

  /** The item hit test of a drag: one of the item's four corners lies within the area. */
  predicate CornerHit(b: Box, area: Box) {
    || Within(area, b.left, b.top)
    || Within(area, b.right, b.top)
    || Within(area, b.left, b.bottom)
    || Within(area, b.right, b.bottom)
  }

  /** Two boxes overlap or touch, every edge counted in. */
  predicate Touches(a: Box, b: Box) {
    Max(a.left, b.left) <= Min(a.right, b.right) && Max(a.top, b.top) <= Min(a.bottom, b.bottom)
  }

  /** The area on the page is the box spanned by the drag origin and the pointer. */
  lemma AreaSpansDrag(originX: int, originY: int, x: int, y: int, containerX: int, containerY: int)
    ensures AreaBox(DragRect(originX, originY, x, y, containerX, containerY), containerX, containerY)
         == Box(Min(originX, x), Min(originY, y), Max(originX, x), Max(originY, y))
  {
  }

  /** Swapping the origin and the pointer gives the same area, wherever the container is. */
  lemma AreaSymmetric(originX: int, originY: int, x: int, y: int, cx: int, cy: int, cx': int, cy': int)
    ensures AreaBox(DragRect(originX, originY, x, y, cx, cy), cx, cy)
         == AreaBox(DragRect(x, y, originX, originY, cx', cy'), cx', cy')
  {
    AreaSpansDrag(originX, originY, x, y, cx, cy);
    AreaSpansDrag(x, y, originX, originY, cx', cy');
  }

  /** A drag with no extent on either axis selects nothing: the half-open area is empty. */
  lemma FlatAreaHitsNothing(b: Box, area: Box)
    requires area.left == area.right || area.top == area.bottom
    ensures !CornerHit(b, area)
  {
  }

  /** A corner hit on a well-formed item box means the item touches the area. */
  lemma CornerHitTouches(b: Box, area: Box)
    requires b.left <= b.right && b.top <= b.bottom
    requires CornerHit(b, area)
    ensures Touches(b, area)
  {
  }

  /**
   * The converse fails: an item that encloses the whole area touches it
   * and yet has no corner inside it, so a drag inside one item misses it.
   */
  lemma EnclosingItemMissed()
    ensures Touches(Box(0, 0, 10, 10), Box(2, 2, 4, 4))
    ensures !CornerHit(Box(0, 0, 10, 10), Box(2, 2, 4, 4))
  {
  }
}
