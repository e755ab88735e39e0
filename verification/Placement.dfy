/** Where the placer puts a widget in its parent, and where the widget puts its own children. */
module Placement {
  import opened Geometry
  import opened Surfaces
  import opened WidgetTree

  const DEFAULT_TOPBAR_HEIGHT := 30

  /** C's conversion of a number to an integer, which truncates towards zero. */
  function Truncated(r: real): int {
    if r >= 0.0 then r.Floor else -((-r).Floor)
  }

  /** A position along one side of the parent, before truncation. */
  function Position(start: int, length: int, share: real, offset: int): real {
    length as real * share + offset as real + start as real
  }

  /** A length given as a share of the parent's plus a constant; zero asks for the requested one. */
  function Length(parent: int, share: real, offset: int, requested: int): int {
    var n := Truncated(Position(0, parent, share, offset));
    if n == 0 then requested else n
  }

  /** How far a rectangle starts before the place it is anchored at. */
  function AnchorX(anchor: Anchor, width: int): int {
    match anchor
    case Center | North | South => Half(width)
    case NorthEast | East | SouthEast => width
    case _ => 0
  }

  function AnchorY(anchor: Anchor, height: int): int {
    match anchor
    case Center | East | West => Half(height)
    case SouthEast | South | SouthWest => height
    case _ => 0
  }

  function PositionX(p: PlacerParams, parent: Rect): real {
    Position(parent.topLeft.x, parent.size.width, p.relX, p.x)
  }

  function PositionY(p: PlacerParams, parent: Rect): real {
    Position(parent.topLeft.y, parent.size.height, p.relY, p.y)
  }

  /** The place of a widget with these parameters and this requested size in the content of its parent. */
  function Placed(p: PlacerParams, requested: Size, parent: Rect): Rect {
    var size := Size(Length(parent.size.width, p.relWidth, p.width, requested.width),
                     Length(parent.size.height, p.relHeight, p.height, requested.height));
    Rect(Point(Truncated(PositionX(p, parent)) - AnchorX(p.anchor, size.width),
               Truncated(PositionY(p, parent)) - AnchorY(p.anchor, size.height)), size)
  }

  /** Half of an odd length is truncated towards zero. */
  predicate Halves(half: int, n: int) {
    if n >= 0 then 0 <= n - 2 * half <= 1 else -1 <= n - 2 * half <= 0
  }

  /** The integer is the number without its fraction. */
  predicate WholePart(r: real, n: int) {
    if r >= 0.0 then n as real <= r < n as real + 1.0 else n as real - 1.0 < r <= n as real
  }

  /** The point of a rectangle that an anchor names: a corner, or the middle of a side or of the
      rectangle, to the pixel. */
  predicate AnchoredAt(anchor: Anchor, r: Rect, p: Point) {
    && (match anchor
        case West | NorthWest | SouthWest | NoAnchor => p.x == r.Left()
        case East | NorthEast | SouthEast => p.x == r.Right()
        case Center | North | South => Halves(p.x - r.Left(), r.size.width))
    && (match anchor
        case North | NorthWest | NorthEast | NoAnchor => p.y == r.Top()
        case South | SouthWest | SouthEast => p.y == r.Bottom()
        case Center | East | West => Halves(p.y - r.Top(), r.size.height))
  }

  /** Whatever size a widget gets, the point its anchor names is at its position in the parent. */
  lemma AnchorIsAtPosition(p: PlacerParams, requested: Size, parent: Rect)
    ensures AnchoredAt(p.anchor, Placed(p, requested, parent),
                       Point(Truncated(PositionX(p, parent)), Truncated(PositionY(p, parent))))
  {
    hide Truncated, Length, Position;
    HalfIsMiddle(Placed(p, requested, parent).size.width);
    HalfIsMiddle(Placed(p, requested, parent).size.height);
  }

  lemma HalfIsMiddle(n: int)
    ensures Halves(Half(n), n)
  {
  }

  lemma TruncatedIsWhole(r: real)
    ensures WholePart(r, Truncated(r))
  {
  }

  /** The place of a widget: its anchor is at its constant plus its share of the parent from the start of the
      parent, without fractions, and so is each side, or else the requested one if that is nothing. */
  lemma PlacedExactly(p: PlacerParams, requested: Size, parent: Rect) returns (x: int, y: int, width: int, height: int)
    ensures WholePart(parent.size.width as real * p.relX + p.x as real + parent.topLeft.x as real, x)
    ensures WholePart(parent.size.height as real * p.relY + p.y as real + parent.topLeft.y as real, y)
    ensures WholePart(parent.size.width as real * p.relWidth + p.width as real, width)
    ensures WholePart(parent.size.height as real * p.relHeight + p.height as real, height)
    ensures var r := Placed(p, requested, parent);
            && AnchoredAt(p.anchor, r, Point(x, y))
            && r.size.width == (if width == 0 then requested.width else width)
            && r.size.height == (if height == 0 then requested.height else height)
  {
    hide Truncated, AnchoredAt, WholePart, AnchorX, AnchorY;
    AnchorIsAtPosition(p, requested, parent);
    x, y := Truncated(PositionX(p, parent)), Truncated(PositionY(p, parent));
    var across := Position(0, parent.size.width, p.relWidth, p.width);
    var down := Position(0, parent.size.height, p.relHeight, p.height);
    width, height := Truncated(across), Truncated(down);
    TruncatedIsWhole(PositionX(p, parent));
    TruncatedIsWhole(PositionY(p, parent));
    TruncatedIsWhole(across);
    TruncatedIsWhole(down);
    assert PositionX(p, parent) == parent.size.width as real * p.relX + p.x as real + parent.topLeft.x as real;
    assert PositionY(p, parent) == parent.size.height as real * p.relY + p.y as real + parent.topLeft.y as real;
    assert across == parent.size.width as real * p.relWidth + p.width as real;
    assert down == parent.size.height as real * p.relHeight + p.height as real;
  }

  /** The arguments of a placement, each of which may be left out. */
  datatype Placing = Placing(anchor: Option<Anchor>, x: Option<int>, y: Option<int>, width: Option<int>, height: Option<int>,
                             relX: Option<real>, relY: Option<real>, relWidth: Option<real>, relHeight: Option<real>)

  function Given<T>(argument: Option<T>, otherwise: T): T {
    if argument.Some? then argument.value else otherwise
  }

  /** The parameters after a placement. What is left out stays as it was, or is set to its default
      the first time: zero, or the requested size where no share of the parent's is given either. */
  function WithArguments(a: Placing, first: bool, was: PlacerParams, requested: Size): PlacerParams {
    PlacerParams(
      Given(a.anchor, if first then NorthWest else was.anchor),
      Given(a.x, if first then 0 else was.x),
      Given(a.y, if first then 0 else was.y),
      Given(a.width, if first then (if a.relWidth.Some? then 0 else requested.width) else was.width),
      Given(a.height, if first then (if a.relHeight.Some? then 0 else requested.height) else was.height),
      Given(a.relX, if first then 0.0 else was.relX),
      Given(a.relY, if first then 0.0 else was.relY),
      Given(a.relWidth, if first then 0.0 else was.relWidth),
      Given(a.relHeight, if first then 0.0 else was.relHeight))
  }

  /** An argument that is given is taken; one that is left out keeps its value, or gets its default the first time. */
  lemma ArgumentsAreTaken(a: Placing, first: bool, was: PlacerParams, requested: Size)
    ensures var p := WithArguments(a, first, was, requested);
            && p.anchor == (if a.anchor.Some? then a.anchor.value else if first then NorthWest else was.anchor)
            && p.x == (if a.x.Some? then a.x.value else if first then 0 else was.x)
            && p.y == (if a.y.Some? then a.y.value else if first then 0 else was.y)
            && p.relX == (if a.relX.Some? then a.relX.value else if first then 0.0 else was.relX)
            && p.relY == (if a.relY.Some? then a.relY.value else if first then 0.0 else was.relY)
            && p.relWidth == (if a.relWidth.Some? then a.relWidth.value else if first then 0.0 else was.relWidth)
            && p.relHeight == (if a.relHeight.Some? then a.relHeight.value else if first then 0.0 else was.relHeight)
            && p.width == (if a.width.Some? then a.width.value else if !first then was.width
                           else if a.relWidth.Some? then 0 else requested.width)
            && p.height == (if a.height.Some? then a.height.value else if !first then was.height
                            else if a.relHeight.Some? then 0 else requested.height)
  {
  }

  /** A widget first placed without any size gets the one it has requested, in whatever parent; a
      later placement without a size keeps it, whatever is requested then. */
  lemma RequestedSizeIsKept(a: Placing, b: Placing, was: PlacerParams, requested: Size, later: Size, parent: Rect)
    requires a.width.None? && a.height.None? && a.relWidth.None? && a.relHeight.None?
    requires b.width.None? && b.height.None? && b.relWidth.None? && b.relHeight.None?
    requires requested.width != 0 && requested.height != 0
    ensures var p := WithArguments(a, true, was, requested);
            Placed(p, requested, parent).size == requested
            && Placed(WithArguments(b, false, p, later), later, parent).size == requested
  {
    hide AnchorX, AnchorY;
    NoShare(parent.size.width, requested.width, requested.width);
    NoShare(parent.size.height, requested.height, requested.height);
    NoShare(parent.size.width, requested.width, later.width);
    NoShare(parent.size.height, requested.height, later.height);
  }

  lemma NoShare(parent: int, offset: int, requested: int)
    ensures Length(parent, 0.0, offset, requested) == if offset == 0 then requested else offset
  {
    assert parent as real * 0.0 == 0.0;
  }

  /** The same rectangle elsewhere. */
  function Moved(r: Rect, dx: int, dy: int): Rect {
    Rect(Point(r.topLeft.x + dx, r.topLeft.y + dy), r.size)
  }

  /** Truncation follows a move by whole pixels, unless a fraction changes sides of zero. */
  predicate MovesAlong(a: real, d: int) {
    a == a.Floor as real || (a > 0.0 <==> a + d as real > 0.0)
  }

  lemma TruncationMoves(a: real, d: int)
    ensures Truncated(a + d as real) == Truncated(a) + d <==> MovesAlong(a, d)
  {
    var f := a.Floor;
    assert (a + d as real).Floor == f + d;
    assert a != f as real ==> (-a).Floor == -f - 1 && (-(a + d as real)).Floor == -(f + d) - 1;
    assert a == f as real ==> (-a).Floor == -f && (-(a + d as real)).Floor == -(f + d);
  }

  /** A child moves along with its parent exactly when neither of its coordinates is a fraction
      that changes sides of zero on the way. */
  lemma ChildMovesAlong(p: PlacerParams, requested: Size, parent: Rect, dx: int, dy: int)
    ensures Placed(p, requested, Moved(parent, dx, dy)) == Moved(Placed(p, requested, parent), dx, dy)
            <==> MovesAlong(PositionX(p, parent), dx) && MovesAlong(PositionY(p, parent), dy)
  {
    hide Truncated, MovesAlong, AnchorX, AnchorY, Length;
    TruncationMoves(PositionX(p, parent), dx);
    TruncationMoves(PositionY(p, parent), dy);
    assert PositionX(p, Moved(parent, dx, dy)) == PositionX(p, parent) + dx as real;
    assert PositionY(p, Moved(parent, dx, dy)) == PositionY(p, parent) + dy as real;
  }

  /** The rectangle a widget gives its children, if it has one of its own. */
  function OwnContent(wclass: WidgetClass, border: int, screen: Rect): Option<Rect> {
    if wclass == ToplevelClass then
      Some(Rect(Point(screen.topLeft.x + border, screen.topLeft.y + DEFAULT_TOPBAR_HEIGHT), screen.size))
    else if border != 0 then
      Some(Rect(Point(screen.topLeft.x + border, screen.topLeft.y + border),
                Size(screen.size.width - 2 * border, screen.size.height - 2 * border)))
    else None
  }

  function Content(wclass: WidgetClass, border: int, screen: Rect): Rect {
    var own := OwnContent(wclass, border, screen);
    if own.Some? then own.value else screen
  }

  /** The rectangle of a toplevel with its borders and top bar. */
  function FrameRect(border: int, screen: Rect): Rect {
    Rect(screen.topLeft, Size(screen.size.width + 2 * border, screen.size.height + border + DEFAULT_TOPBAR_HEIGHT))
  }
}
