/** Points, sizes and rectangles of the library, and the operations on them. */
module Geometry {

  datatype Point = Point(x: int, y: int)

  datatype Size = Size(width: int, height: int)

  /** A rectangle; a width or height of zero or less leaves it without pixels. */
  datatype Rect = Rect(topLeft: Point, size: Size) {

    function Left(): int { topLeft.x }
    function Top(): int { topLeft.y }
    function Right(): int { topLeft.x + size.width }
    function Bottom(): int { topLeft.y + size.height }

    predicate Contains(p: Point) {
      Left() <= p.x < Right() && Top() <= p.y < Bottom()
    }
  }

  ghost function PixelsOf(r: Rect): (s: set<Point>)
    ensures forall p :: p in s <==> r.Contains(p)
  {
    set x: int, y: int | r.Left() <= x < r.Right() && r.Top() <= y < r.Bottom() :: Point(x, y)
  }

  function Min(a: int, b: int): int {
    if a < b then a else b
  }

  function Max(a: int, b: int): int {
    if a < b then b else a
  }

  function WindowRect(window: Size): Rect {
    Rect(Point(0, 0), window)
  }

  /** Starts at or after the origin and ends within the window. */
  predicate Within(r: Rect, window: Size) {
    0 <= r.Left() && 0 <= r.Top() && r.Right() <= window.width && r.Bottom() <= window.height
  }

  function Intersection(a: Rect, b: Rect): Rect {
    var topLeft := Point(Max(a.topLeft.x, b.topLeft.x), Max(a.topLeft.y, b.topLeft.y));
    Rect(topLeft,
         Size(Min(a.topLeft.x + a.size.width, b.topLeft.x + b.size.width) - topLeft.x,
              Min(a.topLeft.y + a.size.height, b.topLeft.y + b.size.height) - topLeft.y))
  }

  /** The intersection has exactly the common pixels, empty rectangles included. */
  lemma IntersectionIsExact(a: Rect, b: Rect)
    ensures forall p :: Intersection(a, b).Contains(p) <==> a.Contains(p) && b.Contains(p)
  {
  }

  /** A rectangle the library updates through a pointer. */
  class RectCell {
    var rect: Rect

    constructor (rect: Rect)
      ensures this.rect == rect
    {
      this.rect := rect;
    }

    /** Clips the rectangle to the window, in place. */
    method Normalize(window: Size)
      modifies this
      ensures rect == Intersection(old(rect), WindowRect(window))
    {
      rect := rect.(size := Size(rect.size.width + Min(0, rect.topLeft.x), rect.size.height + Min(0, rect.topLeft.y)));
      rect := rect.(topLeft := Point(Max(0, rect.topLeft.x), Max(0, rect.topLeft.y)));
      if rect.topLeft.x + rect.size.width >= window.width {
        rect := rect.(size := rect.size.(width := window.width - rect.topLeft.x));
      }
      if rect.topLeft.y + rect.size.height >= window.height {
        rect := rect.(size := rect.size.(height := window.height - rect.topLeft.y));
      }
    }
  }

  function Clipped(r: Rect, window: Size): Rect {
    Intersection(r, WindowRect(window))
  }

  /** Clipping changes nothing exactly when the rectangle already lies in the window. */
  lemma ClippedExactly(r: Rect, window: Size)
    ensures Clipped(r, window) == r <==> Within(r, window)
    ensures Within(Clipped(r, window), window)
    ensures Clipped(Clipped(r, window), window) == Clipped(r, window)
  {
  }

  /** The rectangle two pixels larger on every side. */
  function Extended(r: Rect): Rect {
    Rect(Point(r.topLeft.x - 2, r.topLeft.y - 2), Size(r.size.width + 4, r.size.height + 4))
  }

  /** The smallest rectangle around two rectangles, as the invalidation computes it. */
  function Around(a: Rect, b: Rect): Rect {
    var topLeft := Point(Min(a.topLeft.x, b.topLeft.x), Min(a.topLeft.y, b.topLeft.y));
    Rect(topLeft,
         Size(Max(a.topLeft.x + a.size.width, b.topLeft.x + b.size.width) - topLeft.x,
              Max(a.topLeft.y + a.size.height, b.topLeft.y + b.size.height) - topLeft.y))
  }

  /** One rectangle's edges lie within the other's, whatever the sizes. */
  predicate EdgesWithin(a: Rect, b: Rect) {
    b.Left() <= a.Left() && a.Right() <= b.Right() && b.Top() <= a.Top() && a.Bottom() <= b.Bottom()
  }

  /** One rectangle has no pixel outside another. */
  predicate Inside(a: Rect, b: Rect) {
    a.size.width <= 0 || a.size.height <= 0 || EdgesWithin(a, b)
  }

  lemma InsideExactly(a: Rect, b: Rect)
    ensures Inside(a, b) <==> forall p | a.Contains(p) :: b.Contains(p)
  {
    var first, last := Point(a.Left(), a.Top()), Point(a.Right() - 1, a.Bottom() - 1);
    if !Inside(a, b) {
      assert a.Contains(first) && a.Contains(last);
      assert !b.Contains(first) || !b.Contains(last);
    }
  }

  /** It contains both, and lies in every rectangle that does, by their edges. */
  lemma AroundIsSmallest(a: Rect, b: Rect, r: Rect)
    ensures EdgesWithin(a, Around(a, b)) && EdgesWithin(b, Around(a, b))
    ensures EdgesWithin(a, r) && EdgesWithin(b, r) ==> EdgesWithin(Around(a, b), r)
  {
  }

  /** C's division by two, which truncates towards zero. */
  function Half(n: int): int {
    if n >= 0 then n / 2 else -((-n) / 2)
  }
}
