/** Drawing the widget tree into the pick surface, redrawing invalidated rectangles, and picking. */
module Drawing {
  import opened RowMajor
  import opened Geometry
  import opened Pixels
  import opened Surfaces
  import opened Picture
  import opened WidgetTree
  import opened Invalidation
  import opened Destroying
  import opened Placement
  import opened Layout
  import opened Placer

  /** The polygon primitive: writes a colour exactly on the covered pixels inside the clip. */
  method DrawPolygon(surface: Surface, covered: set<Point>, color: Color, clip: Rect)
    requires surface.Valid()
    modifies surface.pixels
    ensures forall p | WindowRect(surface.SizeOf()).Contains(p) ::
              surface.Pixel(p) == if clip.Contains(p) && p in covered then MapRgba(surface.channels, color)
                                  else old(surface.Pixel(p))
  {
    hide MapRgba;
    var intColor := MapRgba(surface.channels, color);
    for i := 0 to surface.pixels.Length
      invariant forall j | 0 <= j < surface.pixels.Length ::
                  surface.pixels[j] == if j < i && clip.Contains(PointAt(j, surface.width))
                                          && PointAt(j, surface.width) in covered
                                       then intColor else old(surface.pixels[j])
    {
      if clip.Contains(PointAt(i, surface.width)) && PointAt(i, surface.width) in covered {
        surface.pixels[i] := intColor;
      }
    }
    forall p | WindowRect(surface.SizeOf()).Contains(p)
      ensures surface.Pixel(p) == if clip.Contains(p) && p in covered then intColor else old(surface.Pixel(p))
    {
      surface.PointInside(p);
    }
  }

  lemma DrawableIntersection(a: Rect, b: Rect, window: Size)
    requires Drawable(a, window)
    ensures Drawable(Intersection(a, b), window)
  {
  }

  /** Paints the pick colour of one widget: a toplevel fills its frame rectangle, a frame or a
      button the polygon of its outline, and a close button does so under its own clip. */
  method DrawWidget(app: App, w: Widget, clip: Rect)
    requires app.Valid() && app.Nested() && w in app.all && app.pick.Valid() && Drawable(clip, app.pick.SizeOf())
    modifies app.pick.pixels
    ensures forall p | WindowRect(app.pick.SizeOf()).Contains(p) ::
              app.pick.Pixel(p) == if app.InfoOf(w).Reach(clip).Contains(p) && p in app.InfoOf(w).outline then app.Ink(w)
                                   else old(app.pick.Pixel(p))
    ensures w.wclass == ToplevelClass ==>
              forall p | WindowRect(app.pick.SizeOf()).Contains(p) ::
                app.pick.Pixel(p) == if clip.Contains(p) && w.drawRect.Contains(p) then app.Ink(w) else old(app.pick.Pixel(p))
    ensures w.wclass == FrameClass || (w.wclass == ButtonClass && !w.noClipping) ==>
              forall p | WindowRect(app.pick.SizeOf()).Contains(p) ::
                app.pick.Pixel(p) == if clip.Contains(p) && p in w.shape(w.screenLocation) then app.Ink(w)
                                     else old(app.pick.Pixel(p))
    ensures w.wclass == ButtonClass && w.noClipping ==>
              w.parent != null && w.parent.parent != null
              && forall p | WindowRect(app.pick.SizeOf()).Contains(p) ::
                   app.pick.Pixel(p) == if w.parent.parent.ContentRect().Contains(p) && p in w.shape(w.screenLocation)
                                        then app.Ink(w) else old(app.pick.Pixel(p))
  {
    hide MapRgba;
    if w.wclass == ToplevelClass {
      var allClipper := Intersection(clip, w.drawRect);
      DrawableIntersection(clip, w.drawRect, app.pick.SizeOf());
      IntersectionIsExact(clip, w.drawRect);
      app.pick.Fill(w.pickColor, Some(allClipper));
    } else {
      var borderClipper := clip;
      if w.wclass == ButtonClass && w.noClipping {
        borderClipper := w.parent.parent.ContentRect();
      }
      DrawPolygon(app.pick, w.shape(w.screenLocation), w.pickColor, borderClipper);
    }
  }

  /** The trees of the children of a widget that is about to be drawn are still. */
  ghost predicate StillBelow(app: App, w: Widget)
    reads app, app.all
    requires app.Valid() && w in app.all
  {
    forall i {:trigger app.kids[w][i]} | 0 <= i < |app.kids[w]| ::
      app.kids[w][i] in app.all && Still(TreeOf(app, app.kids[w][i]), w.ContentRect())
  }

  /** What drawing needs: the widgets, a surface for their identifiers, and the list that the placer
      adds to when a widget moves. */
  ghost predicate CanDraw(app: App, list: RectList)
    reads app, app.all, app.pick, app.pick.pixels, list, list.nodes
  {
    app.Valid() && app.Nested() && app.pick.Valid() && list.Valid()
  }

  /** Runs the placer on a widget that is where it belongs: nothing changes and nothing is listed. */
  method RunSettled(app: App, list: RectList, w: Widget)
    requires CanDraw(app, list) && w in app.all && w.mapped && w.parent != null && w.parent in app.all
    requires GeoOf(w).Settled(w.parent.ContentRect())
    modifies app.all`screenLocation, app.all`ownContent, app.all`drawRect, list, list.nodes
    ensures unchanged(app.all) && unchanged(list) && unchanged(list.nodes)
  {
    hide Placed, Under, App.Node, App.Nested, Listed, Run, TreeOf, Geo.Settled;
    RunPlacer(app, list, w);
    assert forall v | v in app.all && v !in Below(app, w) :: unchanged(v);
    assert forall v | v in app.all :: unchanged(v);
  }

  /** Draws the children of a widget, each followed by its own children in a narrower clip. */
  method DrawWidgetChildren(app: App, list: RectList, widget: Widget, clip: Rect)
    requires CanDraw(app, list) && widget in app.all && Drawable(clip, app.pick.SizeOf()) && StillBelow(app, widget)
    modifies app.pick.pixels
    modifies app.all`screenLocation, app.all`ownContent, app.all`drawRect, list, list.nodes
    ensures unchanged(app.all) && unchanged(list) && unchanged(list.nodes)
    ensures forall p | WindowRect(app.pick.SizeOf()).Contains(p) ::
              app.pick.Pixel(p) == PaintedIn(app.ForestFrom(widget, 0), clip, p, old(app.pick.Pixel(p)))
    decreases app.widId - widget.pickId, 1
  {
    hide MapRgba, Intersection, Still, TreeOf, RectList.Valid, App.Nested;
    if clip.size.width < 0 || clip.size.height < 0 {
      return;
    }
    assert app.Node(widget);
    var current := widget.childrenHead;
    ghost var i := 0;
    while current != null
      invariant 0 <= i <= |app.kids[widget]| && current == At(app.kids[widget], i)
      invariant unchanged(app.all) && unchanged(list) && unchanged(list.nodes)
      invariant forall p | WindowRect(app.pick.SizeOf()).Contains(p) ::
                  Painted(app.ForestFrom(widget, i), clip, p, app.pick.Pixel(p))
                  == Painted(app.ForestFrom(widget, 0), clip, p, old(app.pick.Pixel(p)))
      decreases |app.kids[widget]| - i
    {
      assert app.Child(widget, i) && NextIs(app.kids[widget], i);
      DrawSubtree(app, list, widget, i, current, clip);
      current := current.nextSibling;
      i := i + 1;
    }
  }

  /** Runs the placer on one child if it is managed, and draws it and everything below it. */
  method DrawSubtree(app: App, list: RectList, ghost widget: Widget, ghost i: nat, current: Widget, clip: Rect)
    requires CanDraw(app, list) && widget in app.all && Drawable(clip, app.pick.SizeOf()) && StillBelow(app, widget)
    requires i < |app.kids[widget]| && current == app.kids[widget][i]
    modifies app.pick.pixels
    modifies app.all`screenLocation, app.all`ownContent, app.all`drawRect, list, list.nodes
    ensures unchanged(app.all) && unchanged(list) && unchanged(list.nodes)
    ensures forall p | WindowRect(app.pick.SizeOf()).Contains(p) ::
              Painted(app.ForestFrom(widget, i + 1), clip, p, app.pick.Pixel(p))
              == Painted(app.ForestFrom(widget, i), clip, p, old(app.pick.Pixel(p)))
    decreases app.widId - widget.pickId, 0
  {
    hide MapRgba, Intersection, RectList.Valid, App.Nested, StillBelow, TreeOf, Geo.Settled, Painted, PaintedIn;
    assert app.Node(widget) && app.Child(widget, i) && app.Node(current);
    OneMore(app, widget, i, clip);
    if current.mapped {
      StillParts(app, widget, i);
      DrawManaged(app, list, current, clip);
    }
  }

  ghost function PaintedChild(app: App, widget: Widget, i: nat, clip: Rect, p: Point, under: nat): nat
    reads app, app.all
    requires app.Valid() && widget in app.all && i < |app.kids[widget]|
  {
    ChildFacts(app, widget, i);
    if app.kids[widget][i].mapped then PaintedWith(app, app.kids[widget][i], clip, p, under) else under
  }

  /** What the `i`th child adds to the painting of its siblings behind it. */
  lemma OneMore(app: App, widget: Widget, i: nat, clip: Rect)
    requires app.Valid() && widget in app.all && i < |app.kids[widget]|
    ensures app.kids[widget][i] in app.all
    ensures forall p, under :: Painted(app.ForestFrom(widget, i), clip, p, under)
                            == Painted(app.ForestFrom(widget, i + 1), clip, p, PaintedChild(app, widget, i, clip, p, under))
  {
    hide MapRgba, Intersection;
    ChildFacts(app, widget, i);
  }

  /** What one managed widget and everything below it leave at a pixel. */
  ghost function PaintedWith(app: App, w: Widget, clip: Rect, p: Point, under: nat): nat
    reads app, app.all
    requires app.Valid() && w in app.all && w.parent != null && w.parent in app.all
  {
    assert app.Node(w.parent);
    PaintedIn(app.ForestFrom(w, 0), Intersection(clip, w.ContentRect()), p,
              if app.InfoOf(w).Reach(clip).Contains(p) && p in app.InfoOf(w).outline then app.Ink(w) else under)
  }

  /** Runs the placer on a managed widget, draws it, and draws everything below it. */
  method DrawManaged(app: App, list: RectList, current: Widget, clip: Rect)
    requires CanDraw(app, list) && current in app.all && Drawable(clip, app.pick.SizeOf())
    requires current.mapped && current.parent != null && current.parent in app.all
    requires GeoOf(current).Settled(current.parent.ContentRect()) && StillBelow(app, current)
    modifies app.pick.pixels
    modifies app.all`screenLocation, app.all`ownContent, app.all`drawRect, list, list.nodes
    ensures unchanged(app.all) && unchanged(list) && unchanged(list.nodes)
    ensures forall p | WindowRect(app.pick.SizeOf()).Contains(p) ::
              app.pick.Pixel(p) == PaintedWith(app, current, clip, p, old(app.pick.Pixel(p)))
    decreases app.widId - current.pickId, 2
  {
    hide MapRgba, Intersection, RectList.Valid, App.Nested, StillBelow, Geo.Settled, PaintedIn, App.ForestFrom;
    RunSettled(app, list, current);
    DrawWidget(app, current, clip);
    var currentClipper := Intersection(clip, current.ContentRect());
    DrawableIntersection(clip, current.ContentRect(), app.pick.SizeOf());
    DrawWidgetChildren(app, list, current, currentClipper);
  }

  lemma StillParts(app: App, w: Widget, i: nat)
    requires app.Valid() && w in app.all && i < |app.kids[w]| && StillBelow(app, w)
    requires app.kids[w][i] in app.all && app.kids[w][i].mapped && app.kids[w][i].parent == w
    ensures GeoOf(app.kids[w][i]).Settled(w.ContentRect()) && StillBelow(app, app.kids[w][i])
  {
    hide Placed;
    TreeParts(app, app.kids[w][i]);
    Children(app, app.kids[w][i]);
  }

  /** Draws the root under a clip, then everything below it. */
  method DrawAll(app: App, list: RectList, root: Widget, clip: Rect)
    requires CanDraw(app, list) && root in app.all && Drawable(clip, app.pick.SizeOf()) && StillBelow(app, root)
    modifies app.pick.pixels
    modifies app.all`screenLocation, app.all`ownContent, app.all`drawRect, list, list.nodes
    ensures unchanged(app.all) && unchanged(list) && unchanged(list.nodes)
    ensures forall p | WindowRect(app.pick.SizeOf()).Contains(p) ::
              app.pick.Pixel(p) == Drawn(app.InfoOf(root), app.ForestFrom(root, 0), clip, p, old(app.pick.Pixel(p)))
  {
    hide MapRgba, RectList.Valid, App.Nested, StillBelow, PaintedIn, App.ForestFrom;
    DrawWidget(app, root, clip);
    DrawWidgetChildren(app, list, root, clip);
  }

  /** Redraws every listed rectangle in turn, then empties the list. */
  method RedrawInvalidated(app: App, root: Widget, list: RectList)
    requires CanDraw(app, list) && root in app.all && StillBelow(app, root)
    requires AllWithin(list.Rects(), app.pick.SizeOf())
    modifies app.pick.pixels
    modifies app.all`screenLocation, app.all`ownContent, app.all`drawRect, list, list.nodes
    ensures unchanged(app.all) && list.Valid() && list.Rects() == []
    ensures forall p | WindowRect(app.pick.SizeOf()).Contains(p) ::
              app.pick.Pixel(p) == Redrawn(app.InfoOf(root), app.ForestFrom(root, 0), old(list.Rects()), p,
                                           old(app.pick.Pixel(p)))
  {
    hide Drawn, Redrawn, App.Nested, StillBelow, App.Valid, RectList.Rects;
    ghost var rects, info, forest := list.Rects(), app.InfoOf(root), app.ForestFrom(root, 0);
    RedrawnNothing(info, forest, rects);
    var current := list.head;
    ghost var i := 0;
    while current != null
      invariant 0 <= i <= |list.nodes| && current == if i < |list.nodes| then list.nodes[i] else null
      invariant unchanged(app.all) && unchanged(list) && unchanged(list.nodes)
      invariant forall p | WindowRect(app.pick.SizeOf()).Contains(p) ::
                  app.pick.Pixel(p) == Redrawn(info, forest, rects[..i], p, old(app.pick.Pixel(p)))
      decreases |list.nodes| - i
    {
      assert list.Linked(i);
      assert current.rect == rects[i] && Within(rects[i], app.pick.SizeOf());
      DrawAll(app, list, root, current.rect);
      RedrawnNext(info, forest, rects, i);
      current := current.next;
      i := i + 1;
    }
    assert rects[..i] == rects;
    list.Clear();
  }

  lemma RedrawnNothing(info: Info, forest: Forest, rects: seq<Rect>)
    ensures forall p, under :: Redrawn(info, forest, rects[..0], p, under) == under
  {
  }

  lemma RedrawnNext(info: Info, forest: Forest, rects: seq<Rect>, i: nat)
    requires i < |rects|
    ensures forall p, under :: Redrawn(info, forest, rects[..i + 1], p, under)
                            == Drawn(info, forest, rects[i], p, Redrawn(info, forest, rects[..i], p, under))
  {
    hide Drawn;
    assert rects[..i + 1][..i] == rects[..i];
  }

  /** The pick surface shows, at every pixel of the window, what a full drawing leaves there. */
  ghost predicate ShowsTree(app: App, root: Widget)
    reads app, app.all, app.pick, app.pick.pixels
    requires app.Valid() && root in app.all && root.parent == null && app.pick.Valid()
  {
    forall p | WindowRect(app.pick.SizeOf()).Contains(p) ::
      app.pick.Pixel(p) == Drawn(app.InfoOf(root), app.ForestFrom(root, 0), WindowRect(app.pick.SizeOf()), p, 0)
  }

  /** The root covers the window. */
  ghost predicate Covering(app: App, root: Widget)
    reads app, root
  {
    forall p | WindowRect(app.pick.SizeOf()).Contains(p) :: p in app.OutlineOf(root)
  }

  /** If every pixel that is wrong is listed, redrawing the list makes the surface right. */
  method Refresh(app: App, root: Widget, list: RectList)
    requires CanDraw(app, list) && root in app.all && root.parent == null && Covering(app, root)
    requires StillBelow(app, root) && app.NoCloseButtons() && AllWithin(list.Rects(), app.pick.SizeOf())
    requires forall p | WindowRect(app.pick.SizeOf()).Contains(p) && !Covers(list.Rects(), p) ::
               app.pick.Pixel(p) == Drawn(app.InfoOf(root), app.ForestFrom(root, 0), WindowRect(app.pick.SizeOf()), p, 0)
    modifies app.pick.pixels
    modifies app.all`screenLocation, app.all`ownContent, app.all`drawRect, list, list.nodes
    ensures unchanged(app.all) && list.Valid() && list.Rects() == [] && ShowsTree(app, root)
  {
    hide Drawn, Redrawn, StillBelow, App.Nested, RectList.Valid, RectList.Rects, App.Node;
    ghost var rects, info, forest := list.Rects(), app.InfoOf(root), app.ForestFrom(root, 0);
    AllClippedFrom(app, root, 0);
    RedrawInvalidated(app, root, list);
    forall p | WindowRect(app.pick.SizeOf()).Contains(p)
      ensures app.pick.Pixel(p) == Drawn(info, forest, WindowRect(app.pick.SizeOf()), p, 0)
    {
      RedrawnListed(info, forest, rects, WindowRect(app.pick.SizeOf()), p, old(app.pick.Pixel(p)), 0);
    }
  }

  lemma {:induction false} AllClippedFrom(app: App, p: Widget, i: nat)
    requires app.Valid() && app.NoCloseButtons() && p in app.all && i <= |app.kids[p]|
    ensures AllClipped(app.ForestFrom(p, i)) && app.OwnClip(p) == None
    decreases app.widId - p.pickId, |app.kids[p]| - i
  {
    hide MapRgba;
    if i < |app.kids[p]| {
      ChildFacts(app, p, i);
      AllClippedFrom(app, app.kids[p][i], 0);
      AllClippedFrom(app, p, i + 1);
    }
  }

  /** The first drawing: the whole tree under the content of the root. */
  method InitialDraw(app: App, root: Widget, list: RectList)
    requires CanDraw(app, list) && root in app.all && root.parent == null && Covering(app, root) && StillBelow(app, root)
    requires root.ContentRect() == WindowRect(app.pick.SizeOf())
    modifies app.pick.pixels
    modifies app.all`screenLocation, app.all`ownContent, app.all`drawRect, list, list.nodes
    ensures unchanged(app.all) && unchanged(list) && unchanged(list.nodes) && ShowsTree(app, root)
  {
    hide StillBelow, App.Nested, RectList.Valid, App.Node;
    DrawAll(app, list, root, root.ContentRect());
  }

  // ----- the widgets of the picture -----

  /** The children of `p` from the `i`th on and everything below them, in drawing order. */
  ghost function WidgetsFrom(app: App, p: Widget, i: nat): (ws: seq<Widget>)
    reads app, app.all
    requires app.Valid() && p in app.all && i <= |app.kids[p]|
    ensures forall w | w in ws :: w in app.all
    decreases app.widId - p.pickId, |app.kids[p]| - i
  {
    if i == |app.kids[p]| then []
    else
      ChildFacts(app, p, i);
      [app.kids[p][i]] + WidgetsFrom(app, app.kids[p][i], 0) + WidgetsFrom(app, p, i + 1)
  }

  /** The widgets between `p` and `w`, from the top down. */
  ghost function AboveIn(app: App, p: Widget, w: Widget): seq<Info>
    reads app, app.all
    requires app.Valid() && w in app.all
    decreases w.pickId
  {
    if w == p || w.parent == null || w.parent == p then []
    else
      ParentFacts(app, w);
      ParentIsKnown(app, w.parent);
      AboveIn(app, p, w.parent) + [app.InfoOf(w.parent)]
  }

  lemma ParentIsKnown(app: App, w: Widget)
    requires app.Valid() && w in app.all
    ensures w.parent != null ==> w.parent in app.all && (w.parent.parent != null ==> w.parent.parent in app.all)
  {
    assert app.Node(w);
    assert w.parent != null ==> app.Node(w.parent);
  }

  lemma {:induction false} AboveThrough(app: App, p: Widget, c: Widget, w: Widget)
    requires app.Valid() && w in app.all && c in app.all && p in app.all && c.parent == p && Under(app, w, c)
    ensures AboveIn(app, p, w) == if w == c then [] else [app.InfoOf(c)] + AboveIn(app, c, w)
    decreases w.pickId
  {
    hide MapRgba, App.InfoOf;
    ParentFacts(app, c);
    UnderIsYounger(app, w, c);
    if w != c {
      ParentFacts(app, w);
      AboveThrough(app, p, c, w.parent);
      UnderIsYounger(app, w.parent, c);
      ParentIsKnown(app, w.parent);
    }
  }

  /** The entries describe these widgets, under `above` and the widgets between `p` and them. */
  ghost predicate Describes(app: App, p: Widget, above: seq<Info>, ws: seq<Widget>, es: seq<Entry>)
    reads app, app.all
    requires app.Valid()
  {
    |ws| == |es| && forall k | 0 <= k < |es| :: DescribesOne(app, p, above, ws[k], es[k])
  }

  ghost predicate DescribesOne(app: App, p: Widget, above: seq<Info>, w: Widget, e: Entry)
    reads app, app.all
    requires app.Valid()
  {
    w in app.all && (ParentIsKnown(app, w); e.info == app.InfoOf(w)) && e.above == above + AboveIn(app, p, w)
  }

  lemma DescribesInTurn(app: App, p: Widget, above: seq<Info>, c: Widget, e: Entry, ws: seq<Widget>, es: seq<Entry>,
                        xs: seq<Widget>, fs: seq<Entry>)
    requires app.Valid() && DescribesOne(app, p, above, c, e)
    requires Describes(app, p, above, ws, es) && Describes(app, p, above, xs, fs)
    ensures Describes(app, p, above, [c] + ws + xs, [e] + es + fs)
  {
    hide DescribesOne;
  }

  lemma DescribedBelow(app: App, p: Widget, c: Widget, above: seq<Info>, ws: seq<Widget>, es: seq<Entry>)
    requires app.Valid() && p in app.all && c in app.all && c.parent == p
    requires forall w | w in ws :: w in app.all && Under(app, w, c) && w != c
    requires Describes(app, c, above + [app.InfoOf(c)], ws, es)
    ensures Describes(app, p, above, ws, es)
  {
    hide DescribesOne, Under, App.InfoOf, App.Valid;
    forall k | 0 <= k < |es|
      ensures DescribesOne(app, p, above, ws[k], es[k])
    {
      assert ws[k] in ws;
      DescribedUp(app, p, c, above, ws[k], es[k]);
    }
  }

  lemma DescribedUp(app: App, p: Widget, c: Widget, above: seq<Info>, w: Widget, e: Entry)
    requires app.Valid() && p in app.all && c in app.all && c.parent == p && w in app.all && Under(app, w, c) && w != c
    requires DescribesOne(app, c, above + [app.InfoOf(c)], w, e)
    ensures DescribesOne(app, p, above, w, e)
  {
    hide App.InfoOf, AboveIn, Under, App.Valid;
    AboveThrough(app, p, c, w);
    InTurn(above, app.InfoOf(c), AboveIn(app, c, w));
  }

  lemma InTurn(above: seq<Info>, i: Info, below: seq<Info>)
    ensures above + [i] + below == above + ([i] + below)
  {
  }

  /** Every entry of the picture describes one of them, under the widgets that are above it. */
  lemma {:induction false} EntriesAreWidgets(app: App, p: Widget, i: nat, above: seq<Info>)
    requires app.Valid() && p in app.all && i <= |app.kids[p]|
    ensures Describes(app, p, above, WidgetsFrom(app, p, i), Preorder(app.ForestFrom(p, i), above))
    decreases app.widId - p.pickId, |app.kids[p]| - i
  {
    hide MapRgba, AboveIn, Under, App.InfoOf, Describes;
    if i < |app.kids[p]| {
      ChildFacts(app, p, i);
      var c := app.kids[p][i];
      var inner := WidgetsFrom(app, c, 0);
      EntriesAreWidgets(app, c, 0, above + [app.InfoOf(c)]);
      EntriesAreWidgets(app, p, i + 1, above);
      DrawnOnce(app, c, 0);
      BelowSelf(app, c);
      AboveThrough(app, p, c, c);
      forall x | x in inner
        ensures Under(app, x, c) && x != c
      {
        BelowChild(app, x, c);
      }
      DescribedBelow(app, p, c, above, inner, Preorder(app.ForestFrom(c, 0), above + [app.InfoOf(c)]));
      assert above + [] == above;
      DescribesInTurn(app, p, above, c, Entry(app.InfoOf(c), above), inner,
                      Preorder(app.ForestFrom(c, 0), above + [app.InfoOf(c)]), WidgetsFrom(app, p, i + 1),
                      Preorder(app.ForestFrom(p, i + 1), above));
    } else {
      NoneDescribed(app, p, above);
    }
  }

  lemma NoneDescribed(app: App, p: Widget, above: seq<Info>)
    requires app.Valid()
    ensures Describes(app, p, above, [], [])
  {
  }

  /** No widget is drawn twice. */
  lemma {:induction false} DrawnOnce(app: App, p: Widget, i: nat)
    requires app.Valid() && p in app.all && i <= |app.kids[p]|
    ensures forall x | x in WidgetsFrom(app, p, i) :: BelowSome(app, x, p, i) && x.pickId > p.pickId
    ensures NoDuplicates(WidgetsFrom(app, p, i))
    decreases app.widId - p.pickId, |app.kids[p]| - i
  {
    hide Under;
    if i < |app.kids[p]| {
      ChildFacts(app, p, i);
      var c := app.kids[p][i];
      var inner, rest := WidgetsFrom(app, c, 0), WidgetsFrom(app, p, i + 1);
      DrawnOnce(app, c, 0);
      DrawnOnce(app, p, i + 1);
      BelowSelf(app, c);
      forall x | x in inner
        ensures Under(app, x, c)
      {
        BelowChild(app, x, c);
      }
      forall x | x in rest
        ensures !Under(app, x, c)
      {
        LaterApart(app, x, p, i);
      }
      DistinctParts([], c, inner);
      assert [] + [c] + inner == [c] + inner;
      JoinDistinct([c] + inner, rest);
    }
  }

  /** Every widget below is drawn. */
  lemma {:induction false} AllDrawn(app: App, p: Widget, i: nat, x: Widget)
    requires app.Valid() && p in app.all && x in app.all && i <= |app.kids[p]| && BelowSome(app, x, p, i)
    ensures x in WidgetsFrom(app, p, i)
    decreases app.widId - p.pickId, |app.kids[p]| - i
  {
    var j :| i <= j < |app.kids[p]| && Under(app, x, app.kids[p][j]);
    ChildFacts(app, p, i);
    var c := app.kids[p][i];
    if j == i {
      if x != c {
        UnderFirst(app, x, c);
        AllDrawn(app, c, 0, x);
      }
    } else {
      AllDrawn(app, p, i + 1, x);
    }
  }

  lemma JoinDistinct(a: seq<Widget>, b: seq<Widget>)
    requires NoDuplicates(a) && NoDuplicates(b) && forall x | x in a :: x !in b
    ensures NoDuplicates(a + b)
  {
    forall i, j | 0 <= i < j < |a + b|
      ensures (a + b)[i] != (a + b)[j]
    {
      assert i < |a| ==> (a + b)[i] == a[i] && a[i] in a;
      assert j >= |a| ==> (a + b)[j] == b[j - |a|] && b[j - |a|] in b;
    }
  }

  /** Different widgets leave different values while fewer than 2^24 have been created. */
  lemma InksDiffer(app: App, a: Widget, b: Widget)
    requires app.Valid() && app.pick.Valid() && app.widId <= 0x100_0000
    requires a in app.all && b in app.all && app.Ink(a) == app.Ink(b)
    ensures a == b
  {
    hide MapRgba, PickColor;
    assert app.Node(a) && app.Node(b);
    SamePixelExactly(app.pick.channels, a.pickId, b.pickId);
  }

  /** So their values are apart. */
  lemma EntriesApart(app: App, root: Widget)
    requires app.Valid() && app.pick.Valid() && app.widId <= 0x100_0000 && root in app.all
    ensures InksApart(Preorder(app.ForestFrom(root, 0), []), app.Ink(root))
  {
    hide MapRgba, Preorder, App.ForestFrom, WidgetsFrom, BelowSome;
    var ws, es := WidgetsFrom(app, root, 0), Preorder(app.ForestFrom(root, 0), []);
    EntriesAreWidgets(app, root, 0, []);
    DrawnOnce(app, root, 0);
    forall i | 0 <= i < |es|
      ensures es[i].info.ink != app.Ink(root) && forall j | i < j < |es| :: es[i].info.ink != es[j].info.ink
    {
      assert ws[i] in ws;
      if es[i].info.ink == app.Ink(root) {
        InksDiffer(app, ws[i], root);
        assert false;
      }
      forall j | i < j < |es|
        ensures es[i].info.ink != es[j].info.ink
      {
        if es[i].info.ink == es[j].info.ink {
          InksDiffer(app, ws[i], ws[j]);
          assert false;
        }
      }
    }
  }

  /** Exactly when processing the list makes a pixel of the window right, close buttons or not, while at most
      2^24 widgets have been created. */
  lemma ListMakesRight(app: App, root: Widget, rects: seq<Rect>, p: Point, was: nat)
    requires app.Valid() && app.pick.Valid() && app.widId <= 0x100_0000 && root in app.all && root.parent == null
    requires AllWithin(rects, app.pick.SizeOf()) && WindowRect(app.pick.SizeOf()).Contains(p) && p in app.OutlineOf(root)
    ensures var es, window := Preorder(app.ForestFrom(root, 0), []), WindowRect(app.pick.SizeOf());
            var right := Drawn(app.InfoOf(root), app.ForestFrom(root, 0), window, p, 0);
            Redrawn(app.InfoOf(root), app.ForestFrom(root, 0), rects, p, was) == right <==>
              (exists k :: LastTouching(es, rects, p, k) && Restores(es, rects[k], window, p))
              || ((forall k | 0 <= k < |rects| :: !Touches(es, rects[k], p)) && was == right)
  {
    hide MapRgba, Preorder, App.ForestFrom, Drawn, Redrawn, InksApart, Touches, Restores, LastTouching;
    EntriesApart(app, root);
    RedrawnExactly(app.InfoOf(root), app.ForestFrom(root, 0), rects, WindowRect(app.pick.SizeOf()), p, was, 0);
  }

  // ----- picking -----

  /** Searches a widget and what is below it, in drawing order, for a pixel value. */
  method PickRec(app: App, parent: Widget, ink: nat) returns (found: Widget?)
    requires app.Valid() && parent in app.all
    ensures found == Found(app, parent, ink)
    decreases app.widId - parent.pickId
  {
    hide MapRgba;
    if ink == app.Ink(parent) {
      return parent;
    }
    assert app.Node(parent);
    var current := parent.childrenHead;
    ghost var i := 0;
    while current != null
      invariant 0 <= i <= |app.kids[parent]| && current == At(app.kids[parent], i)
      invariant FoundAmong(app, parent, 0, ink) == FoundAmong(app, parent, i, ink)
      decreases |app.kids[parent]| - i
    {
      assert app.Child(parent, i) && NextIs(app.kids[parent], i) && app.Node(current);
      found := PickRec(app, current, ink);
      if found != null {
        return;
      }
      current := current.nextSibling;
      i := i + 1;
    }
    return null;
  }

  ghost function Found(app: App, w: Widget, ink: nat): Widget?
    reads app, app.all
    requires app.Valid() && w in app.all
    decreases app.widId - w.pickId, 1, 0
  {
    if ink == app.Ink(w) then w
    else
      assert app.Node(w);
      FoundAmong(app, w, 0, ink)
  }

  ghost function FoundAmong(app: App, p: Widget, i: nat, ink: nat): Widget?
    reads app, app.all
    requires app.Valid() && p in app.all && i <= |app.kids[p]|
    decreases app.widId - p.pickId, 0, |app.kids[p]| - i
  {
    if i == |app.kids[p]| then null
    else
      assert app.Node(p) && app.Child(p, i) && app.Node(app.kids[p][i]);
      var f := Found(app, app.kids[p][i], ink);
      if f != null then f else FoundAmong(app, p, i + 1, ink)
  }

  /** A search returns a widget with the value, or none if no widget it passes has it. */
  lemma {:induction false} FoundExactly(app: App, p: Widget, i: nat, ink: nat, above: seq<Info>, k: nat)
    requires app.Valid() && p in app.all && i <= |app.kids[p]|
    ensures var f := FoundAmong(app, p, i, ink);
            f != null ==> f in app.all && app.Ink(f) == ink
    ensures var es := Preorder(app.ForestFrom(p, i), above);
            k < |es| && es[k].info.ink == ink ==> FoundAmong(app, p, i, ink) != null
    decreases app.widId - p.pickId, |app.kids[p]| - i
  {
    hide MapRgba;
    if i < |app.kids[p]| {
      assert app.Node(p) && app.Child(p, i) && app.Node(app.kids[p][i]);
      var c := app.kids[p][i];
      var inner := Preorder(app.ForestFrom(c, 0), above + [app.InfoOf(c)]);
      FoundExactly(app, c, 0, ink, above + [app.InfoOf(c)], if k >= 1 then k - 1 else 0);
      FoundExactly(app, p, i + 1, ink, above, if k >= 1 + |inner| then k - 1 - |inner| else 0);
    }
  }

  /** Picks the widget at a point of the window, through the pick surface. */
  method Pick(app: App, root: Widget, where: Point) returns (found: Widget?)
    requires app.Valid() && root in app.all && app.pick.Valid() && WindowRect(app.pick.SizeOf()).Contains(where)
    ensures found == Found(app, root, app.pick.Pixel(where))
  {
    app.pick.PointInside(where);
    RowsIsProduct(where.y, app.pick.width);
    var ptr := where.x + where.y * app.pick.width;
    found := PickRec(app, root, app.pick.pixels[ptr]);
  }

  /** What a full drawing leaves at a pixel: the value of the topmost widget, or of the root. */
  lemma DrawnIsTopmost(app: App, root: Widget, p: Point)
    requires app.Valid() && root in app.all && root.parent == null
    requires WindowRect(app.pick.SizeOf()).Contains(p) && p in app.OutlineOf(root)
    ensures Drawn(app.InfoOf(root), app.ForestFrom(root, 0), WindowRect(app.pick.SizeOf()), p, 0)
         == Topmost(Preorder(app.ForestFrom(root, 0), []), WindowRect(app.pick.SizeOf()), p, app.Ink(root))
  {
    hide MapRgba;
    PaintedIsTopmost(app.ForestFrom(root, 0), [], WindowRect(app.pick.SizeOf()), p, app.Ink(root));
  }

  /** Picking agrees with geometry: the widget found is the last one in drawing order that shows
      at the point, and the root where none does. */
  lemma PickIsTopmost(app: App, root: Widget, where: Point)
    requires app.Valid() && root in app.all && root.parent == null && app.pick.Valid() && Covering(app, root)
    requires ShowsTree(app, root) && app.widId <= 0x100_0000
    requires WindowRect(app.pick.SizeOf()).Contains(where)
    ensures var es, window := Preorder(app.ForestFrom(root, 0), []), WindowRect(app.pick.SizeOf());
            var f := Found(app, root, app.pick.Pixel(where));
            && f != null && f in app.all
            && if forall i | 0 <= i < |es| :: !es[i].Shows(window, where) then f == root
               else exists i :: LastShown(es, window, where, i) && app.InfoOf(f) == es[i].info
  {
    hide MapRgba, Drawn, Topmost, Preorder, Entry.Shows;
    var es, window := Preorder(app.ForestFrom(root, 0), []), WindowRect(app.pick.SizeOf());
    var ink := app.pick.Pixel(where);
    DrawnIsTopmost(app, root, where);
    TopmostIsLast(es, window, where, app.Ink(root));
    FoundExactly(app, root, 0, ink, [], 0);
    if i :| LastShown(es, window, where, i) && ink == es[i].info.ink {
      EntriesAreWidgets(app, root, 0, []);
      FoundExactly(app, root, 0, ink, [], i);
      InksDiffer(app, Found(app, root, ink), WidgetsFrom(app, root, 0)[i]);
    }
  }

  /** Where and under what a widget of the tree shows: it is managed, drawing gets to it, and its own pixels
      and its clip have the point. A close button has the content of its grandparent for a clip, and any
      other widget what the window and the contents above it have in common. */
  ghost predicate ShowsAt(app: App, root: Widget, w: Widget, p: Point)
    reads app, app.all
    requires app.Valid() && w in app.all
  {
    ParentIsKnown(app, w);
    var window := WindowRect(app.pick.SizeOf());
    && w.mapped && Reached(window, AboveIn(app, root, w))
    && (if w.wclass == ToplevelClass then w.drawRect.Contains(p) else p in w.shape(w.screenLocation))
    && if w.wclass == ButtonClass && w.noClipping && w.parent != null && w.parent.parent != null
       then w.parent.parent.ContentRect().Contains(p) else ClipUnder(window, AboveIn(app, root, w)).Contains(p)
  }

  lemma EntryShowsAt(app: App, root: Widget, k: nat, p: Point)
    requires app.Valid() && root in app.all && k < |Preorder(app.ForestFrom(root, 0), [])|
    ensures k < |WidgetsFrom(app, root, 0)| && WidgetsFrom(app, root, 0)[k] in app.all
    ensures Preorder(app.ForestFrom(root, 0), [])[k].Shows(WindowRect(app.pick.SizeOf()), p)
            <==> ShowsAt(app, root, WidgetsFrom(app, root, 0)[k], p)
  {
    hide MapRgba, AboveIn, Preorder, App.ForestFrom, WidgetsFrom, Reached, ClipUnder;
    EntriesAreWidgets(app, root, 0, []);
    var w := WidgetsFrom(app, root, 0)[k];
    ParentIsKnown(app, w);
    assert [] + AboveIn(app, root, w) == AboveIn(app, root, w);
  }

  /** Strictly between the root and a widget. */
  ghost predicate Between(app: App, root: Widget, v: Widget, w: Widget)
    reads app, app.all`parent, app.all`childrenHead, app.all`childrenTail, app.all`nextSibling
    requires app.Valid() && v in app.all && w in app.all
  {
    v != w && v != root && Under(app, w, v) && Under(app, v, root)
  }

  lemma BetweenUp(app: App, root: Widget, v: Widget, w: Widget)
    requires app.Valid() && root in app.all && v in app.all && w in app.all && w != root && Under(app, w, root)
    ensures w.parent != null && w.parent in app.all && Under(app, w.parent, root) && w.parent.pickId < w.pickId
    ensures Between(app, root, v, w) <==> w.parent != root && (v == w.parent || Between(app, root, v, w.parent))
  {
    ParentFacts(app, w);
    var u := w.parent;
    assert v != w ==> (Under(app, w, v) <==> Under(app, u, v));
    if u == root && v != w && Under(app, u, v) && Under(app, v, root) {
      UnderIsYounger(app, root, v);
      UnderIsYounger(app, v, root);
    }
    if Under(app, u, v) {
      UnderIsYounger(app, u, v);
    }
    assert v == u ==> Under(app, u, v);
  }

  /** Every widget between it and the root is managed and has the point in its content. */
  ghost predicate OpenTo(app: App, root: Widget, w: Widget, p: Point)
    reads app, app.all
    requires app.Valid() && w in app.all
  {
    forall v | v in app.all && Between(app, root, v, w) :: v.mapped && v.ContentRect().Contains(p)
  }

  lemma OpenUp(app: App, root: Widget, w: Widget, p: Point)
    requires app.Valid() && root in app.all && w in app.all && w != root && Under(app, w, root)
    ensures w.parent != null && w.parent in app.all && Under(app, w.parent, root) && w.parent.pickId < w.pickId
    ensures OpenTo(app, root, w, p) <==>
              w.parent == root || (w.parent.mapped && w.parent.ContentRect().Contains(p) && OpenTo(app, root, w.parent, p))
  {
    hide Under, Between;
    BetweenUp(app, root, w, w);
    var u := w.parent;
    forall v | v in app.all
      ensures Between(app, root, v, w) <==> u != root && (v == u || Between(app, root, v, u))
    {
      BetweenUp(app, root, v, w);
    }
    assert u != root ==> Between(app, root, u, w);
  }

  ghost predicate AllOpen(above: seq<Info>, p: Point) {
    forall k | 0 <= k < |above| :: above[k].mapped && above[k].content.Contains(p)
  }

  lemma AllOpenUp(init: seq<Info>, last: Info, p: Point)
    ensures AllOpen(init + [last], p) <==> AllOpen(init, p) && last.mapped && last.content.Contains(p)
  {
    var above := init + [last];
    assert above[|init|] == last && forall k | 0 <= k < |init| :: above[k] == init[k];
  }

  lemma {:induction false} AboveIsOpen(app: App, root: Widget, w: Widget, p: Point)
    requires app.Valid() && root in app.all && w in app.all && w != root && Under(app, w, root)
    ensures AllOpen(AboveIn(app, root, w), p) <==> OpenTo(app, root, w, p)
    decreases w.pickId
  {
    hide MapRgba, Under, OpenTo, AllOpen;
    OpenUp(app, root, w, p);
    if w.parent != root {
      AboveIsOpen(app, root, w.parent, p);
      ParentIsKnown(app, w.parent);
      AllOpenUp(AboveIn(app, root, w.parent), app.InfoOf(w.parent), p);
    } else {
      NothingAbove(p);
    }
  }

  lemma NothingAbove(p: Point)
    ensures AllOpen([], p)
  {
  }

  /** A widget that is no close button shows exactly where it and every widget between it and the root are
      managed, its own pixels have the point, and so do the window and the content of all those between. */
  lemma ShownExactly(app: App, root: Widget, w: Widget, p: Point)
    requires app.Valid() && root in app.all && w in app.all && w != root && Under(app, w, root)
    requires !(w.wclass == ButtonClass && w.noClipping)
    ensures ShowsAt(app, root, w, p) <==>
              && w.mapped && WindowRect(app.pick.SizeOf()).Contains(p)
              && (if w.wclass == ToplevelClass then w.drawRect.Contains(p) else p in w.shape(w.screenLocation))
              && forall v | v in app.all && Between(app, root, v, w) :: v.mapped && v.ContentRect().Contains(p)
  {
    hide MapRgba, Under, Between, AboveIn, Reached, ClipUnder;
    var above, window := AboveIn(app, root, w), WindowRect(app.pick.SizeOf());
    AboveIsOpen(app, root, w, p);
    ClipUnderExactly(window, above, p);
    if ClipUnder(window, above).Contains(p) {
      ReachedWhereClipped(window, above, p);
    }
  }

  /** The last widget in drawing order that shows at a point is the one that is picked there. */
  lemma LastShownIsPicked(app: App, root: Widget, where: Point, k: nat)
    requires app.Valid() && root in app.all && root.parent == null && app.pick.Valid() && Covering(app, root)
    requires ShowsTree(app, root) && app.widId <= 0x100_0000 && WindowRect(app.pick.SizeOf()).Contains(where)
    requires k < |WidgetsFrom(app, root, 0)| && ShowsAt(app, root, WidgetsFrom(app, root, 0)[k], where)
    requires forall j | k < j < |WidgetsFrom(app, root, 0)| :: !ShowsAt(app, root, WidgetsFrom(app, root, 0)[j], where)
    ensures Found(app, root, app.pick.Pixel(where)) == WidgetsFrom(app, root, 0)[k]
  {
    hide MapRgba, Drawn, Topmost, Preorder, Entry.Shows, ShowsAt, WidgetsFrom, App.ForestFrom, AboveIn;
    var ws, es, window := WidgetsFrom(app, root, 0), Preorder(app.ForestFrom(root, 0), []), WindowRect(app.pick.SizeOf());
    EntriesAreWidgets(app, root, 0, []);
    forall j | 0 <= j < |es|
      ensures es[j].Shows(window, where) <==> ShowsAt(app, root, ws[j], where)
    {
      EntryShowsAt(app, root, j, where);
    }
    assert LastShown(es, window, where, k);
    PickIsTopmost(app, root, where);
    var f := Found(app, root, app.pick.Pixel(where));
    var i :| LastShown(es, window, where, i) && app.InfoOf(f) == es[i].info;
    assert i == k;
    InksDiffer(app, f, ws[k]);
  }

  /** A close button of a toplevel on the root is picked wherever its polygon lies in the content of the root and
      no later widget shows, also outside the content of its toplevel. */
  lemma CloseButtonIsPicked(app: App, root: Widget, quit: Widget, where: Point, k: nat)
    requires app.Valid() && root in app.all && root.parent == null && app.pick.Valid() && Covering(app, root)
    requires ShowsTree(app, root) && app.widId <= 0x100_0000 && WindowRect(app.pick.SizeOf()).Contains(where)
    requires k < |WidgetsFrom(app, root, 0)| && WidgetsFrom(app, root, 0)[k] == quit
    requires quit.wclass == ButtonClass && quit.noClipping && quit.mapped
    requires quit.parent != null && quit.parent.parent == root && quit.parent.mapped
    requires NotNegative(Intersection(WindowRect(app.pick.SizeOf()), quit.parent.ContentRect()))
    requires where in quit.shape(quit.screenLocation) && root.ContentRect().Contains(where)
    requires forall j | k < j < |WidgetsFrom(app, root, 0)| :: !ShowsAt(app, root, WidgetsFrom(app, root, 0)[j], where)
    ensures Found(app, root, app.pick.Pixel(where)) == quit
  {
    hide WidgetsFrom, MapRgba;
    assert quit in WidgetsFrom(app, root, 0);
    ParentIsKnown(app, quit);
    ParentFacts(app, quit);
    ParentFacts(app, quit.parent);
    var top, window := app.InfoOf(quit.parent), WindowRect(app.pick.SizeOf());
    assert AboveIn(app, root, quit.parent) == [];
    assert AboveIn(app, root, quit) == [top];
    OneAbove(window, top);
    LastShownIsPicked(app, root, where, k);
  }

  lemma OneAbove(window: Rect, top: Info)
    ensures ClipUnder(window, [top]) == Intersection(window, top.content)
    ensures Reached(window, [top]) <==> NotNegative(window) && top.mapped && NotNegative(Intersection(window, top.content))
  {
    assert [top][..0] == [];
  }
}
