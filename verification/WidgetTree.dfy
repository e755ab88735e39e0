/** The widget hierarchy: widgets chained by head, tail and sibling pointers. */
module WidgetTree {
  import opened Geometry
  import opened Pixels
  import opened Surfaces
  import opened Picture

  datatype WidgetClass = FrameClass | ButtonClass | ToplevelClass

  datatype Anchor = NoAnchor | Center | North | NorthEast | East | SouthEast | South | SouthWest | West | NorthWest

  datatype PlacerParams = PlacerParams(anchor: Anchor, x: int, y: int, width: int, height: int,
                                       relX: real, relY: real, relWidth: real, relHeight: real)

  /** Where a widget is before it is placed. */
  const NOWHERE := Rect(Point(0, 0), Size(0, 0))

  /** The identifier of a widget, spread over the red, green and blue channels. */
  function PickColor(id: nat): Color {
    Color(id % 256, (id / 256) % 256, (id / 0x1_0000) % 256, 255)
  }

  class Widget {
    const wclass: WidgetClass
    const pickId: nat
    const pickColor: Color
    var parent: Widget?
    var childrenHead: Widget?
    var childrenTail: Widget?
    var nextSibling: Widget?

    var mapped: bool
    var params: PlacerParams
    var requestedSize: Size
    var screenLocation: Rect
    /** Where children go: a rectangle of its own, or else the screen location itself. */
    var ownContent: Option<Rect>
    var borderWidth: int
    var drawRect: Rect
    /** The pixels that the polygon drawn for a frame or a button at a place covers. */
    var shape: Rect -> set<Point>
    var resizable: bool
    var isResizeButton: bool
    /** A close button is not clipped by its parent, but by the content of its grandparent. */
    var noClipping: bool

    constructor (wclass: WidgetClass, pickId: nat, parent: Widget?)
      ensures this.wclass == wclass && this.pickId == pickId && this.parent == parent
      ensures pickColor == PickColor(pickId)
      ensures childrenHead == null && childrenTail == null && nextSibling == null && Unplaced()
      ensures resizable == (wclass == ToplevelClass) && !isResizeButton && !noClipping
    {
      this.wclass, this.pickId, this.parent := wclass, pickId, parent;
      pickColor := PickColor(pickId);
      childrenHead, childrenTail, nextSibling := null, null, null;
      mapped := false;
      params := PlacerParams(NorthWest, 0, 0, 0, 0, 0.0, 0.0, 0.0, 0.0);
      requestedSize := Size(0, 0);
      screenLocation := NOWHERE;
      ownContent := None;
      borderWidth := if wclass == FrameClass then 0 else 4;
      drawRect := NOWHERE;
      shape := r => {};
      resizable := wclass == ToplevelClass;
      isResizeButton, noClipping := false, false;
    }

    /** A new widget is not managed, and has the default border of its class. */
    predicate Unplaced()
      reads `mapped, `screenLocation, `ownContent, `borderWidth
    {
      !mapped && screenLocation == NOWHERE && ownContent == None && borderWidth == if wclass == FrameClass then 0 else 4
    }

    function ContentRect(): Rect
      reads `ownContent, `screenLocation
    {
      if ownContent.Some? then ownContent.value else screenLocation
    }
  }

  function At(s: seq<Widget>, i: nat): Widget? {
    if i < |s| then s[i] else null
  }

  ghost predicate NoDuplicates(s: seq<Widget>) {
    forall i, j | 0 <= i < j < |s| :: s[i] != s[j]
  }

  /** Head, tail and sibling pointers spell out the list `s`. */
  ghost predicate Chained(p: Widget, s: seq<Widget>)
    reads p`childrenHead, p`childrenTail, s`nextSibling
  {
    && p.childrenHead == At(s, 0)
    && p.childrenTail == (if s == [] then null else s[|s| - 1])
    && (forall i {:trigger NextIs(s, i)} | 0 <= i < |s| :: NextIs(s, i))
  }

  ghost predicate NextIs(s: seq<Widget>, i: nat)
    reads s`nextSibling
    requires i < |s|
  {
    s[i].nextSibling == At(s, i + 1)
  }

  class App {
    var widId: nat
    const pick: Surface
    /** The widgets that exist, and the children of each in order. */
    ghost var all: set<Widget>
    ghost var kids: map<Widget, seq<Widget>>

    constructor (pick: Surface)
      ensures Valid() && this.pick == pick && all == {} && widId == 0
    {
      this.pick := pick;
      widId := 0;
      all := {};
      kids := map[];
    }

    ghost predicate Valid()
      reads this, all`parent, all`childrenHead, all`childrenTail, all`nextSibling
    {
      && kids.Keys == all
      && (forall p {:trigger Node(p)} | p in all :: Node(p))
      && (forall a, b | a in all && b in all :: a.pickId == b.pickId ==> a == b)
    }

    /** A widget's pointers agree with its list of children, and it is listed by its parent. */
    ghost predicate Node(p: Widget)
      reads this, all`parent, all`childrenHead, all`childrenTail, all`nextSibling
      requires p in all && kids.Keys == all
    {
      ChildrenExist(p) && Family(p) && Chained(p, kids[p])
    }

    ghost predicate ChildrenExist(p: Widget)
      reads this
      requires p in all && kids.Keys == all
    {
      forall c | c in kids[p] :: c in all
    }

    /** The part of a node that does not change while lists of children are edited. */
    ghost predicate Family(p: Widget)
      reads this, all`parent
      requires p in all && kids.Keys == all && ChildrenExist(p)
    {
      && p.pickId < widId && p.pickColor == PickColor(p.pickId)
      && NoDuplicates(kids[p])
      && (forall i {:trigger Child(p, i)} | 0 <= i < |kids[p]| :: Child(p, i))
      && (p.parent == null || (p.parent in all && p in kids[p.parent]))
    }

    /** A child points to its parent, and was created after it. */
    ghost predicate Child(p: Widget, i: nat)
      reads this, all`parent
      requires p in all && kids.Keys == all && ChildrenExist(p) && i < |kids[p]|
    {
      kids[p][i].parent == p && kids[p][i].pickId > p.pickId
    }

    /** The value a widget leaves in the pick surface. */
    function Ink(w: Widget): nat {
      MapRgba(pick.channels, w.pickColor)
    }

    /** The pixels a widget paints before clipping. */
    ghost function OutlineOf(w: Widget): set<Point>
      reads w`drawRect, w`shape, w`screenLocation
    {
      if w.wclass == ToplevelClass then PixelsOf(w.drawRect) else w.shape(w.screenLocation)
    }

    /** The clip that a close button has in place of its parent's. */
    function OwnClip(w: Widget): Option<Rect>
      reads w, w.parent, if w.parent == null then {} else {w.parent.parent}
    {
      if w.wclass == ButtonClass && w.noClipping && w.parent != null && w.parent.parent != null
      then Some(w.parent.parent.ContentRect()) else None
    }

    ghost function InfoOf(w: Widget): Info
      reads w, w.parent, if w.parent == null then {} else {w.parent.parent}
    {
      Info(Ink(w), w.mapped, OutlineOf(w), w.ContentRect(), OwnClip(w))
    }

    /** Every close button has a grandparent. */
    ghost predicate Nested()
      reads this, all`parent, all`childrenHead, all`childrenTail, all`nextSibling, all`noClipping
      requires Valid()
    {
      forall w {:trigger w.noClipping} | w in all && w.wclass == ButtonClass && w.noClipping ::
        w.parent != null && w.parent in all && w.parent.parent != null
    }

    /** No widget is a close button with a clip of its own. */
    ghost predicate NoCloseButtons()
      reads this, all`noClipping
    {
      forall w | w in all :: !w.noClipping
    }

    /** The children of `p` from the `i`th on, with everything below them. */
    ghost function ForestFrom(p: Widget, i: nat): Forest
      reads this, all
      requires Valid() && p in all && i <= |kids[p]|
      decreases widId - p.pickId, |kids[p]| - i
    {
      if i == |kids[p]| then Nil
      else
        assert Node(p);
        assert Child(p, i);
        var c := kids[p][i];
        assert Node(c);
        assert c.parent == p;
        Cons(InfoOf(c), ForestFrom(c, 0), ForestFrom(p, i + 1))
    }
  }

  // ----- identifiers as pixels -----

  lemma MapInjective(ch: Channels, c: Color, d: Color)
    requires ch.Valid() && c.alpha == d.alpha
    ensures MapRgba(ch, c) == MapRgba(ch, d) <==> c == d
  {
    hide MapRgba, Decode;
    DecodeUndoesMap(ch, c);
    DecodeUndoesMap(ch, d);
  }

  /** The three channels of a pick colour are the digits of the identifier to the base 256, up to 2^24. */
  lemma PickColorIsDigits(id: nat)
    ensures var c := PickColor(id);
            c.red + 256 * c.green + 256 * 256 * c.blue == id % (256 * 256 * 256) && c.alpha == 255
  {
    LowBytes(id);
  }

  lemma DigitsUnique(a: Byte, b: Byte, c: Byte, d: Byte, e: Byte, f: Byte)
    ensures a + 0x100 * b + 0x1_0000 * c == d + 0x100 * e + 0x1_0000 * f <==> a == d && b == e && c == f
  {
  }

  /** Two identifiers leave the same pixel exactly when they agree modulo 2^24. */
  lemma SamePixelExactly(ch: Channels, a: nat, b: nat)
    requires ch.Valid()
    ensures MapRgba(ch, PickColor(a)) == MapRgba(ch, PickColor(b)) <==> a % 0x100_0000 == b % 0x100_0000
  {
    hide MapRgba;
    MapInjective(ch, PickColor(a), PickColor(b));
    LowBytes(a);
    LowBytes(b);
    DigitsUnique(a % 256, (a / 256) % 256, (a / 0x1_0000) % 256, b % 256, (b / 256) % 256, (b / 0x1_0000) % 256);
  }

  lemma LowBytes(a: nat)
    ensures a % 0x100_0000 == a % 256 + 0x100 * ((a / 256) % 256) + 0x1_0000 * ((a / 0x1_0000) % 256)
  {
    var x, y := a / 256, a / 0x1_0000;
    assert a == 256 * x + a % 256;
    assert x / 256 == y;
    assert x == 256 * y + x % 256;
    assert y == 256 * (y / 256) + y % 256;
    assert a == 0x100_0000 * (y / 256) + (0x1_0000 * (y % 256) + 256 * (x % 256) + a % 256);
  }
}
