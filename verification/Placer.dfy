/** Placing widgets on screen: a widget that moves notifies its class, which re-places the children
    and lists the area for redrawing. */
module Placer {
  import opened Geometry
  import opened Surfaces
  import opened WidgetTree
  import opened Invalidation
  import opened Destroying
  import opened Placement
  import opened Layout

  function GeoOf(w: Widget): Geo
    reads w`shape, w`mapped, w`params, w`requestedSize, w`borderWidth, w`screenLocation, w`ownContent, w`drawRect
  {
    Geo(w.wclass, w.pickColor, w.shape, w.mapped, w.params, w.requestedSize, w.borderWidth,
        w.screenLocation, w.ownContent, w.drawRect)
  }

  ghost function Below(app: App, w: Widget): set<Widget>
    reads app, app.all`parent, app.all`childrenHead, app.all`childrenTail, app.all`nextSibling
    requires app.Valid()
  {
    set v | v in app.all && Under(app, v, w)
  }

  /** Everything strictly below a widget. */
  ghost function Deeper(app: App, w: Widget): set<Widget>
    reads app, app.all`parent, app.all`childrenHead, app.all`childrenTail, app.all`nextSibling
    requires app.Valid()
  {
    Below(app, w) - {w}
  }

  lemma BelowParts(app: App, w: Widget, i: nat)
    requires app.Valid() && w in app.all && i < |app.kids[w]|
    ensures var c := app.kids[w][i];
            && c in app.all && c.parent == w && c.pickId > w.pickId
            && w in Below(app, w) && w !in Below(app, c) && Below(app, c) <= Deeper(app, w)
    ensures forall j | 0 <= j < |app.kids[w]| && j != i :: Below(app, app.kids[w][j]) !! Below(app, app.kids[w][i])
  {
    ChildFacts(app, w, i);
    var c := app.kids[w][i];
    if w in Below(app, c) {
      UnderIsYounger(app, w, c);
      assert false;
    }
    forall v | v in Below(app, c)
      ensures v in Deeper(app, w)
    {
      UnderTransitive(app, v, c, w);
    }
    forall j | 0 <= j < |app.kids[w]| && j != i
      ensures Below(app, app.kids[w][j]) !! Below(app, c)
    {
      ChildFacts(app, w, j);
      assert app.Node(w);
      forall v | v in Below(app, c)
        ensures v !in Below(app, app.kids[w][j])
      {
        if v in Below(app, app.kids[w][j]) {
          SiblingsApart(app, v, c, app.kids[w][j]);
          assert false;
        }
      }
    }
  }

  /** The tree of a widget and everything below it. */
  ghost function TreeOf(app: App, w: Widget): (t: Tree)
    reads app, app.all`parent, app.all`childrenHead, app.all`childrenTail, app.all`nextSibling, Below(app, w)
    requires app.Valid() && w in app.all
    ensures t.geo == GeoOf(w)
    decreases app.widId - w.pickId, |app.kids[w]| + 1
  {
    assert app.Node(w);
    BelowSelf(app, w);
    Tree(GeoOf(w), TreesOf(app, w, |app.kids[w]|))
  }

  ghost function TreesOf(app: App, w: Widget, n: nat): (ts: seq<Tree>)
    reads app, app.all`parent, app.all`childrenHead, app.all`childrenTail, app.all`nextSibling, Deeper(app, w)
    requires app.Valid() && w in app.all && n <= |app.kids[w]|
    ensures |ts| == n
    ensures forall i | 0 <= i < n :: app.kids[w][i] in app.all && w.pickId < app.kids[w][i].pickId < app.widId
    ensures forall i | 0 <= i < n :: ts[i] == TreeOf(app, app.kids[w][i])
    decreases app.widId - w.pickId, n
  {
    if n == 0 then []
    else
      BelowParts(app, w, n - 1);
      assert app.Node(app.kids[w][n - 1]);
      TreesOf(app, w, n - 1) + [TreeOf(app, app.kids[w][n - 1])]
  }

  lemma BelowSelf(app: App, w: Widget)
    requires app.Valid() && w in app.all
    ensures w in Below(app, w) && w !in Deeper(app, w)
  {
  }

  /** The content rectangle of the parent; the unmanaged root has none. */
  function ParentContent(w: Widget): Rect
    reads w, w.parent
  {
    if w.parent == null then NOWHERE else w.parent.ContentRect()
  }

  /** The place of a widget, computed step by step. */
  method ComputePlace(params: PlacerParams, requested: Size, parent: Rect) returns (r: Rect)
    ensures r == Placed(params, requested, parent)
  {
    hide Truncated, Half, Position;
    var x := Truncated(Position(parent.topLeft.x, parent.size.width, params.relX, params.x));
    var y := Truncated(Position(parent.topLeft.y, parent.size.height, params.relY, params.y));
    var height := Truncated(Position(0, parent.size.height, params.relHeight, params.height));
    if height == 0 {
      height := requested.height;
    }
    var width := Truncated(Position(0, parent.size.width, params.relWidth, params.width));
    if width == 0 {
      width := requested.width;
    }
    match params.anchor {
      case Center => x := x - Half(width); y := y - Half(height);
      case North => x := x - Half(width);
      case NorthEast => x := x - width;
      case East => x := x - width; y := y - Half(height);
      case SouthEast => x := x - width; y := y - height;
      case South => x := x - Half(width); y := y - height;
      case SouthWest => y := y - height;
      case West => y := y - Half(height);
      case NorthWest | NoAnchor =>
    }
    r := Rect(Point(x, y), Size(width, height));
  }

  ghost function KidTrees(app: App, w: Widget): seq<Tree>
    reads app, app.all`parent, app.all`childrenHead, app.all`childrenTail, app.all`nextSibling, Deeper(app, w)
    requires app.Valid() && w in app.all
  {
    TreesOf(app, w, |app.kids[w]|)
  }

  /** Re-places a widget; if it moves, lists its old place and notifies its class. */
  method RunPlacer(app: App, list: RectList, w: Widget)
    requires app.Valid() && list.Valid() && w in app.all && (w.mapped ==> w.parent != null)
    modifies Below(app, w)`screenLocation, Below(app, w)`ownContent, Below(app, w)`drawRect, list, list.nodes
    ensures list.Valid() && forall k | 0 <= k < |list.nodes| :: list.nodes[k] in old(list.nodes) || fresh(list.nodes[k])
    ensures TreeOf(app, w) == Run(old(TreeOf(app, w)), old(ParentContent(w)), list.window)
    ensures list.Rects() == Listed(old(TreeOf(app, w)), old(ParentContent(w)), list.window, old(list.Rects()))
    ensures old(GeoOf(w).Settled(ParentContent(w))) ==>
              unchanged(Below(app, w)) && unchanged(list) && unchanged(list.nodes)
    decreases app.widId - w.pickId, 4
  {
    hide Placed, Invalidated, RectList.Rects, RectList.Valid, App.Node, Under, Listed, Run, TreeOf, TreesOf, KidTrees,
         RunBelow, ListedBelow, Geo.NotifiedAt, Geo.ClippedTo, Geo.Area, Extended;
    BelowSelf(app, w);
    TreeParts(app, w);
    ghost var t, parent, rects := TreeOf(app, w), ParentContent(w), list.Rects();
    if !w.mapped {
      Skipped(t, parent, list.window, rects);
      return;
    }
    var oldScreen := w.screenLocation;
    var place := ComputePlace(w.params, w.requestedSize, w.parent.ContentRect());
    w.screenLocation := place;
    TreeParts(app, w);
    assert KidTrees(app, w) == t.kids && list.Rects() == rects;
    assert GeoOf(w) == t.geo.(screen := place);
    if w.screenLocation != oldScreen {
      NotifyMove(app, list, w, oldScreen, t.geo);
      TreeParts(app, w);
      Replaced(t, parent, list.window, rects);
    } else {
      assert TreeOf(app, w) == t;
      Skipped(t, parent, list.window, rects);
    }
  }

  /** Lists a rectangle of which only a local copy is clipped. */
  method InvalidateCopy(list: RectList, rect: Rect)
    requires list.Valid()
    modifies list, list.nodes
    ensures list.Valid() && forall k | 0 <= k < |list.nodes| :: list.nodes[k] in old(list.nodes) || fresh(list.nodes[k])
    ensures list.Rects() == Invalidated(old(list.Rects()), rect, list.window)
  {
    var invRect := new RectCell(rect);
    list.Invalidate(invRect);
  }

  /** Lists the old place of a widget that has just moved, and notifies its class. */
  method NotifyMove(app: App, list: RectList, w: Widget, oldScreen: Rect, ghost before: Geo)
    requires app.Valid() && list.Valid() && w in app.all && w in Below(app, w)
    requires GeoOf(w) == before.(screen := w.screenLocation)
    modifies Below(app, w)`screenLocation, Below(app, w)`ownContent, Below(app, w)`drawRect, list, list.nodes
    ensures list.Valid() && forall k | 0 <= k < |list.nodes| :: list.nodes[k] in old(list.nodes) || fresh(list.nodes[k])
    ensures var ts, g := old(KidTrees(app, w)), before.NotifiedAt(old(w.screenLocation));
            && GeoOf(w) == g.ClippedTo(list.window)
            && KidTrees(app, w) == RunBelow(ts, g.Content(), list.window)
            && list.Rects() == Invalidated(ListedBelow(ts, g.Content(), list.window,
                                                       Invalidated(old(list.Rects()), Extended(oldScreen), list.window)),
                                           g.Area(), list.window)
    decreases app.widId - w.pickId, 3
  {
    hide Placed, Invalidated, RectList.Rects, RectList.Valid, App.Node, Under, RunBelow, ListedBelow, KidTrees;
    InvalidateCopy(list, Extended(oldScreen));
    NotifiedFromMoved(before, w.screenLocation);
    assert forall v | v in Deeper(app, w) :: v in app.all && unchanged(v);
    GeomNotify(app, list, w);
  }

  lemma NotifiedFromMoved(g: Geo, place: Rect)
    ensures g.(screen := place).NotifiedAt(place) == g.NotifiedAt(place)
  {
  }

  lemma TreeParts(app: App, w: Widget)
    requires app.Valid() && w in app.all
    ensures TreeOf(app, w) == Tree(GeoOf(w), KidTrees(app, w))
  {
  }

  lemma Skipped(t: Tree, parent: Rect, window: Size, rects: seq<Rect>)
    requires !t.geo.mapped || t.geo.screen == t.geo.Place(parent)
    ensures Run(t, parent, window) == t && Listed(t, parent, window, rects) == rects
  {
  }

  lemma Replaced(t: Tree, parent: Rect, window: Size, rects: seq<Rect>)
    requires t.geo.mapped && t.geo.screen != t.geo.Place(parent)
    ensures var g := t.geo.NotifiedAt(t.geo.Place(parent));
            && Run(t, parent, window) == Tree(g.ClippedTo(window), RunBelow(t.kids, g.Content(), window))
            && Listed(t, parent, window, rects)
               == Invalidated(ListedBelow(t.kids, g.Content(), window, Invalidated(rects, Extended(t.geo.screen), window)),
                              g.Area(), window)
  {
  }

  /** Notifies the class of a widget that has moved: its content follows, its children are
      re-placed, and its area is listed for redrawing. */
  method GeomNotify(app: App, list: RectList, w: Widget)
    requires app.Valid() && list.Valid() && w in app.all && w in Below(app, w)
    modifies Below(app, w)`screenLocation, Below(app, w)`ownContent, Below(app, w)`drawRect, list, list.nodes
    ensures list.Valid() && forall k | 0 <= k < |list.nodes| :: list.nodes[k] in old(list.nodes) || fresh(list.nodes[k])
    ensures var ts, g := old(KidTrees(app, w)), old(GeoOf(w)).NotifiedAt(old(w.screenLocation));
            && GeoOf(w) == g.ClippedTo(list.window)
            && KidTrees(app, w) == RunBelow(ts, g.Content(), list.window)
            && list.Rects() == Invalidated(ListedBelow(ts, g.Content(), list.window, old(list.Rects())), g.Area(), list.window)
    decreases app.widId - w.pickId, 2
  {
    hide Placed, Invalidated, RectList.Rects, RectList.Valid, App.Node, Under, RunBelow, ListedBelow, KidTrees,
         Geo.NotifiedAt, Geo.ClippedTo, Geo.Area, App.Valid;
    UpdateContent(w);
    NotifyChildren(app, list, w);
    ListArea(list, w);
  }

  /** Recomputes the content rectangle, and the frame rectangle of a toplevel. */
  method UpdateContent(w: Widget)
    modifies w`ownContent, w`drawRect
    ensures GeoOf(w) == old(GeoOf(w)).NotifiedAt(old(w.screenLocation))
    ensures var at, size, b := w.screenLocation.topLeft, w.screenLocation.size, w.borderWidth;
            if w.wclass == ToplevelClass then
              && w.ownContent == Some(Rect(Point(at.x + b, at.y + 30), size))
              && w.drawRect == Rect(at, Size(size.width + b + b, size.height + 30 + b))
            else
              && w.drawRect == old(w.drawRect)
              && w.ownContent == if b != 0 then Some(Rect(Point(at.x + b, at.y + b), Size(size.width - b - b, size.height - b - b)))
                                 else if w.wclass == ButtonClass then None else old(w.ownContent)
  {
    if w.wclass == ToplevelClass {
      w.ownContent := Some(Rect(Point(w.screenLocation.topLeft.x + w.borderWidth,
                                      w.screenLocation.topLeft.y + DEFAULT_TOPBAR_HEIGHT), w.screenLocation.size));
      w.drawRect := Rect(w.screenLocation.topLeft,
                         Size(w.screenLocation.size.width + 2 * w.borderWidth,
                              w.screenLocation.size.height + w.borderWidth + DEFAULT_TOPBAR_HEIGHT));
    } else if w.borderWidth != 0 {
      w.ownContent := Some(Rect(Point(w.screenLocation.topLeft.x + w.borderWidth, w.screenLocation.topLeft.y + w.borderWidth),
                                Size(w.screenLocation.size.width - 2 * w.borderWidth,
                                     w.screenLocation.size.height - 2 * w.borderWidth)));
    } else if w.wclass == ButtonClass {
      w.ownContent := None;
    }
  }

  /** Lists the area of a widget that has moved. A frame passes its own screen location and a
      button its own content, which the listing clips in place. */
  method ListArea(list: RectList, w: Widget)
    requires list.Valid()
    modifies w`screenLocation, w`ownContent, list, list.nodes
    ensures list.Valid() && forall k | 0 <= k < |list.nodes| :: list.nodes[k] in old(list.nodes) || fresh(list.nodes[k])
    ensures GeoOf(w) == old(GeoOf(w)).ClippedTo(list.window)
    ensures list.Rects() == Invalidated(old(list.Rects()), old(GeoOf(w)).Area(), list.window)
  {
    hide Invalidated, Intersection, RectList.Rects;
    if w.wclass == ToplevelClass {
      InvalidateCopy(list, Extended(w.drawRect));
    } else if w.wclass == FrameClass {
      var area := new RectCell(w.screenLocation);
      list.Invalidate(area);
      w.screenLocation := area.rect;
    } else {
      var area := new RectCell(w.ContentRect());
      list.Invalidate(area);
      if w.ownContent.Some? {
        w.ownContent := Some(area.rect);
      } else {
        w.screenLocation := area.rect;
      }
    }
  }

  /** The first `i` children have been re-placed, the others have not. */
  ghost predicate Replacing(app: App, w: Widget, ts: seq<Tree>, i: nat, window: Size)
    reads app, app.all
    requires app.Valid() && w in app.all
  {
    |ts| == |app.kids[w]|
    && forall j | 0 <= j < |ts| ::
         app.kids[w][j] in app.all
         && TreeOf(app, app.kids[w][j]) == if j < i then Run(ts[j], w.ContentRect(), window) else ts[j]
  }

  /** Re-places the children of a widget in order. */
  method NotifyChildren(app: App, list: RectList, w: Widget)
    requires app.Valid() && list.Valid() && w in app.all
    modifies Deeper(app, w)`screenLocation, Deeper(app, w)`ownContent, Deeper(app, w)`drawRect, list, list.nodes
    ensures list.Valid() && forall k | 0 <= k < |list.nodes| :: list.nodes[k] in old(list.nodes) || fresh(list.nodes[k])
    ensures KidTrees(app, w) == RunBelow(old(KidTrees(app, w)), w.ContentRect(), list.window)
    ensures list.Rects() == ListedBelow(old(KidTrees(app, w)), w.ContentRect(), list.window, old(list.Rects()))
    decreases app.widId - w.pickId, 1
  {
    hide Run, Listed, RunBelow, ListedBelow, RectList.Rects, RectList.Valid, Under, App.Node, TreeOf, KidTrees, Replacing;
    ghost var ts := KidTrees(app, w);
    var sibling := w.childrenHead;
    ghost var i := 0;
    NoneReplaced(app, w, list.window);
    ListedSteps(ts, w.ContentRect(), list.window, list.Rects());
    while sibling != null
      invariant 0 <= i <= |app.kids[w]| == |ts| && sibling == At(app.kids[w], i)
      invariant list.Valid() && forall k | 0 <= k < |list.nodes| :: list.nodes[k] in old(list.nodes) || fresh(list.nodes[k])
      invariant Replacing(app, w, ts, i, list.window)
      invariant list.Rects() == ListedBelow(ts[..i], w.ContentRect(), list.window, old(list.Rects()))
      decreases |app.kids[w]| - i
    {
      ChildFacts(app, w, i);
      var next := sibling.nextSibling;
      NotifyChild(app, list, w, i, sibling, ts);
      sibling := next;
      i := i + 1;
    }
    AllReplaced(app, w, ts, list.window);
  }

  /** Re-places one child; its siblings and what is below them stay as they are. */
  method NotifyChild(app: App, list: RectList, ghost w: Widget, ghost i: nat, sibling: Widget, ghost ts: seq<Tree>)
    requires app.Valid() && list.Valid() && w in app.all && i < |app.kids[w]| && sibling == app.kids[w][i]
    requires Replacing(app, w, ts, i, list.window)
    modifies Deeper(app, w)`screenLocation, Deeper(app, w)`ownContent, Deeper(app, w)`drawRect, list, list.nodes
    ensures list.Valid() && forall k | 0 <= k < |list.nodes| :: list.nodes[k] in old(list.nodes) || fresh(list.nodes[k])
    ensures Replacing(app, w, ts, i + 1, list.window)
    ensures list.Rects() == Listed(ts[i], w.ContentRect(), list.window, old(list.Rects()))
    decreases app.widId - w.pickId, 0
  {
    hide Run, Listed, RectList.Rects, RectList.Valid, Under, App.Node, TreeOf;
    BelowParts(app, w, i);
    ChildFacts(app, w, i);
    RunPlacer(app, list, sibling);
    forall j | 0 <= j < |app.kids[w]| && j != i
      ensures TreeOf(app, app.kids[w][j]) == old(TreeOf(app, app.kids[w][j]))
    {
      assert forall v | v in Below(app, app.kids[w][j]) :: v in app.all && unchanged(v);
    }
  }

  lemma Children(app: App, w: Widget)
    requires app.Valid() && w in app.all
    ensures w.childrenHead == At(app.kids[w], 0)
    ensures forall j | 0 <= j < |app.kids[w]| :: app.kids[w][j] in app.all
    ensures |KidTrees(app, w)| == |app.kids[w]|
    ensures forall j | 0 <= j < |app.kids[w]| :: KidTrees(app, w)[j] == TreeOf(app, app.kids[w][j])
  {
    assert app.Node(w);
  }

  lemma NoneReplaced(app: App, w: Widget, window: Size)
    requires app.Valid() && w in app.all
    ensures w.childrenHead == At(app.kids[w], 0) && w !in Deeper(app, w)
    ensures Replacing(app, w, KidTrees(app, w), 0, window)
  {
    Children(app, w);
  }

  lemma AllReplaced(app: App, w: Widget, ts: seq<Tree>, window: Size)
    requires app.Valid() && w in app.all && Replacing(app, w, ts, |ts|, window)
    ensures KidTrees(app, w) == RunBelow(ts, w.ContentRect(), window)
  {
    hide Run, TreeOf;
    Children(app, w);
  }

  lemma ListedSteps(ts: seq<Tree>, content: Rect, window: Size, rects: seq<Rect>)
    ensures ListedBelow(ts[..0], content, window, rects) == rects && ts[..|ts|] == ts
    ensures forall i | 0 <= i < |ts| :: ListedBelow(ts[..i + 1], content, window, rects)
                                     == Listed(ts[i], content, window, ListedBelow(ts[..i], content, window, rects))
  {
    hide Listed;
    forall i | 0 <= i < |ts|
      ensures ListedBelow(ts[..i + 1], content, window, rects)
           == Listed(ts[i], content, window, ListedBelow(ts[..i], content, window, rects))
    {
      assert ts[..i + 1][..i] == ts[..i];
    }
  }

  /** Places a widget. Whatever state its tree was in, the whole tree satisfies its equations
      afterwards exactly when it was ready, and then it is the one a layout from scratch gives. */
  method Place(app: App, list: RectList, w: Widget, a: Placing)
    requires app.Valid() && list.Valid() && w in app.all && w.parent != null
    modifies Below(app, w)`screenLocation, Below(app, w)`ownContent, Below(app, w)`drawRect, w`mapped, w`params,
             list, list.nodes
    ensures list.Valid() && forall k | 0 <= k < |list.nodes| :: list.nodes[k] in old(list.nodes) || fresh(list.nodes[k])
    ensures var t, parent := Managed(old(TreeOf(app, w)), a), old(ParentContent(w));
            && TreeOf(app, w) == Run(t, parent, list.window)
            && list.Rects() == Listed(t, parent, list.window, old(list.Rects()))
            && (Consistent(TreeOf(app, w), parent) <==> ReadyFor(t, parent, list.window))
            && (ReadyFor(t, parent, list.window) ==> TreeOf(app, w) == Full(t, parent))
  {
    hide Run, Listed, Full, ReadyFor, Consistent, RectList.Rects, RectList.Valid, App.Node, Under,
         TreeOf, TreesOf, KidTrees, WithArguments;
    BelowSelf(app, w);
    TreeParts(app, w);
    ghost var t, parent := Managed(TreeOf(app, w), a), ParentContent(w);
    SetArguments(w, a);
    TreeParts(app, w);
    assert TreeOf(app, w) == t;
    RunPlacer(app, list, w);
    IncrementalIsFull(t, parent, list.window);
  }

  /** Stores the given arguments, and defaults for the others the first time. */
  method SetArguments(w: Widget, a: Placing)
    modifies w`mapped, w`params
    ensures w.mapped && w.params == WithArguments(a, !old(w.mapped), old(w.params), w.requestedSize)
  {
    var firstUse := !w.mapped;
    w.mapped := true;
    if a.anchor.Some? {
      w.params := w.params.(anchor := a.anchor.value);
    } else if firstUse {
      w.params := w.params.(anchor := NorthWest);
    }
    if a.x.Some? {
      w.params := w.params.(x := a.x.value);
    } else if firstUse {
      w.params := w.params.(x := 0);
    }
    if a.y.Some? {
      w.params := w.params.(y := a.y.value);
    } else if firstUse {
      w.params := w.params.(y := 0);
    }
    if a.width.Some? {
      w.params := w.params.(width := a.width.value);
    } else if a.relWidth.Some? && firstUse {
      w.params := w.params.(width := 0);
    } else if firstUse {
      w.params := w.params.(width := w.requestedSize.width);
    }
    if a.height.Some? {
      w.params := w.params.(height := a.height.value);
    } else if a.relHeight.Some? && firstUse {
      w.params := w.params.(height := 0);
    } else if firstUse {
      w.params := w.params.(height := w.requestedSize.height);
    }
    w.params := w.params.(relX := Given(a.relX, if firstUse then 0.0 else w.params.relX),
                          relY := Given(a.relY, if firstUse then 0.0 else w.params.relY));
    w.params := w.params.(relWidth := Given(a.relWidth, if firstUse then 0.0 else w.params.relWidth),
                          relHeight := Given(a.relHeight, if firstUse then 0.0 else w.params.relHeight));
  }

  /** The tree with its top widget managed by these arguments. */
  function Managed(t: Tree, a: Placing): Tree {
    t.(geo := t.geo.(mapped := true, params := WithArguments(a, !t.geo.mapped, t.geo.params, t.geo.requested)))
  }
}
